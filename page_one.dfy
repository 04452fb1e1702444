/**
 * `PageOne`: page 1 carries a validity check at bytes 100..115. Opening the database writes 8 random
 * bytes at 100..107; a clean close copies them to 108..115; at the next open the two halves agree
 * only if the previous run was closed cleanly. `RandomUtil` is not part of this model: the random
 * bytes are a parameter.
 */
module PageOne {
  import opened Bytes
  import opened Pages

  const OF_VC: int := 100
  const LEN_VC: int := 8

  /** Page 1 is large enough to hold both halves of the check. */
  predicate HasVc(raw: seq<byte>)
  {
    |raw| >= OF_VC + 2 * LEN_VC
  }

  /** The bytes after `setVcOpen` with random bytes `key`. */
  function VcOpened(raw: seq<byte>, key: seq<byte>): (r: seq<byte>)
    requires HasVc(raw) && |key| == LEN_VC
    ensures |r| == |raw| && r[OF_VC..OF_VC + LEN_VC] == key
    ensures forall i | 0 <= i < |raw| && !(OF_VC <= i < OF_VC + LEN_VC) :: r[i] == raw[i]
  {
    Overwrite(raw, OF_VC, key)
  }

  /** The bytes after `setVcClose`: the open half copied onto the close half. */
  function VcClosed(raw: seq<byte>): (r: seq<byte>)
    requires HasVc(raw)
    ensures |r| == |raw| && r[OF_VC + LEN_VC..OF_VC + 2 * LEN_VC] == raw[OF_VC..OF_VC + LEN_VC]
    ensures forall i | 0 <= i < |raw| && !(OF_VC + LEN_VC <= i < OF_VC + 2 * LEN_VC) :: r[i] == raw[i]
  {
    Overwrite(raw, OF_VC + LEN_VC, raw[OF_VC..OF_VC + LEN_VC])
  }

  /** `checkVc`: both halves hold the same 8 bytes. */
  predicate CheckVcRaw(raw: seq<byte>)
    requires HasVc(raw)
  {
    raw[OF_VC..OF_VC + LEN_VC] == raw[OF_VC + LEN_VC..OF_VC + 2 * LEN_VC]
  }

  /** The check compares byte i of the open half with byte i of the close half, for all 8 of them. */
  lemma CheckVcBytewise(raw: seq<byte>)
    requires HasVc(raw)
    ensures CheckVcRaw(raw) <==> forall i | OF_VC <= i < OF_VC + LEN_VC :: raw[i] == raw[i + LEN_VC]
  {
    var a, b := raw[OF_VC..OF_VC + LEN_VC], raw[OF_VC + LEN_VC..OF_VC + 2 * LEN_VC];
    assert forall j | 0 <= j < LEN_VC :: a[j] == raw[OF_VC + j] && b[j] == raw[OF_VC + j + LEN_VC];
    if forall i | OF_VC <= i < OF_VC + LEN_VC :: raw[i] == raw[i + LEN_VC] {
      assert forall j | 0 <= j < LEN_VC :: a[j] == b[j];
    }
  }

  /** After a clean close the check passes, whatever the bytes were. */
  lemma CheckAfterClose(raw: seq<byte>)
    requires HasVc(raw)
    ensures CheckVcRaw(VcClosed(raw))
  {
    var r := VcClosed(raw);
    assert r[OF_VC..OF_VC + LEN_VC] == raw[OF_VC..OF_VC + LEN_VC];
  }

  /**
   * After an open the check passes only if the random bytes happen to equal the old close half: a
   * database opened and not closed again is seen as not cleanly closed.
   */
  lemma CheckAfterOpen(raw: seq<byte>, key: seq<byte>)
    requires HasVc(raw) && |key| == LEN_VC
    ensures CheckVcRaw(VcOpened(raw, key)) <==> key == raw[OF_VC + LEN_VC..OF_VC + 2 * LEN_VC]
  {
    var r := VcOpened(raw, key);
    assert r[OF_VC + LEN_VC..OF_VC + 2 * LEN_VC] == raw[OF_VC + LEN_VC..OF_VC + 2 * LEN_VC];
  }

  /** Open then close passes the check, and leaves the key in both halves. */
  lemma OpenThenClose(raw: seq<byte>, key: seq<byte>)
    requires HasVc(raw) && |key| == LEN_VC
    ensures CheckVcRaw(VcClosed(VcOpened(raw, key)))
    ensures VcClosed(VcOpened(raw, key))[OF_VC + LEN_VC..OF_VC + 2 * LEN_VC] == key
  {
    CheckAfterClose(VcOpened(raw, key));
  }

  method SetVcOpenRaw(raw: array<byte>, key: seq<byte>)
    requires HasVc(raw[..]) && |key| == LEN_VC
    modifies raw
    ensures raw[..] == VcOpened(old(raw[..]), key)
  {
    WriteBytes(raw, OF_VC, key);
  }

  method SetVcCloseRaw(raw: array<byte>)
    requires HasVc(raw[..])
    modifies raw
    ensures raw[..] == VcClosed(old(raw[..]))
  {
    ArrayCopy(raw, OF_VC, raw, OF_VC + LEN_VC, LEN_VC);
  }

  /** `InitRaw`: a fresh zero page 1, in the open state. */
  method InitRaw(key: seq<byte>) returns (raw: array<byte>)
    requires |key| == LEN_VC
    ensures fresh(raw) && raw.Length == PAGE_SIZE
    ensures raw[..] == VcOpened(Zeros(PAGE_SIZE), key)
  {
    raw := new byte[PAGE_SIZE](_ => 0);
    assert raw[..] == Zeros(PAGE_SIZE);
    SetVcOpenRaw(raw, key);
  }

  /** `setVcOpen(Page)`: marks the page dirty and writes the random bytes. */
  method SetVcOpen(pg: Page, key: seq<byte>)
    requires HasVc(pg.data[..]) && |key| == LEN_VC
    modifies pg, pg.data
    ensures pg.dirty && pg.data[..] == VcOpened(old(pg.data[..]), key)
  {
    pg.dirty := true;
    SetVcOpenRaw(pg.data, key);
  }

  /** `setVcClose(Page)`: marks the page dirty and copies the open half onto the close half. */
  method SetVcClose(pg: Page)
    requires HasVc(pg.data[..])
    modifies pg, pg.data
    ensures pg.dirty && pg.data[..] == VcClosed(old(pg.data[..]))
  {
    pg.dirty := true;
    SetVcCloseRaw(pg.data);
  }

  predicate CheckVc(pg: Page)
    requires HasVc(pg.data[..])
    reads pg.data
  {
    CheckVcRaw(pg.data[..])
  }
}
