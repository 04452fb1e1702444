/**
 * `PageIndex`: pages with free space, kept in 41 buckets by free space divided by THRESHOLD, so that
 * an insert can find a page with room for its record without reading the pages.
 */
module PageIndex {
  import opened Wrappers
  import Pages

  const INTERVALS_NO: int := 40
  const THRESHOLD: int := Pages.PAGE_SIZE / INTERVALS_NO

  /** THRESHOLD is 204, so the 41 buckets cover every free space up to PAGE_SIZE, and Bucket divides by it. */
  lemma ThresholdValue()
    ensures THRESHOLD == 204 && (INTERVALS_NO + 1) * THRESHOLD > Pages.PAGE_SIZE
    ensures forall freeSpace :: Bucket(freeSpace) == freeSpace / THRESHOLD
  {
  }

  /** `PageInfo`: a page number and the free space the index believes it has. */
  datatype PageInfo = PageInfo(pgno: int, freeSpace: int)

  /**
   * The bucket a free space goes to, free space divided by THRESHOLD, written with THRESHOLD's value
   * (see ThresholdValue); defined for 0 <= freeSpace < 41 * THRESHOLD.
   */
  function Bucket(freeSpace: int): int
  {
    freeSpace / 204
  }

  /** Every entry sits in the bucket of its free space. */
  ghost predicate BucketsValid(buckets: seq<seq<PageInfo>>)
  {
    && |buckets| == INTERVALS_NO + 1
    && forall b, j | 0 <= b < |buckets| && 0 <= j < |buckets[b]| ::
         buckets[b][j].freeSpace >= 0 && Bucket(buckets[b][j].freeSpace) == b
  }

  /** A bucket may be replaced by any sequence of entries that belong to it. */
  lemma BucketsValidUpdate(buckets: seq<seq<PageInfo>>, b: int, t: seq<PageInfo>)
    requires BucketsValid(buckets) && 0 <= b < |buckets|
    requires forall j | 0 <= j < |t| :: t[j].freeSpace >= 0 && Bucket(t[j].freeSpace) == b
    ensures BucketsValid(buckets[b := t])
  {
  }

  /** The number of entries in all buckets. */
  function Total(buckets: seq<seq<PageInfo>>): nat
  {
    if buckets == [] then 0 else Total(buckets[..|buckets| - 1]) + |buckets[|buckets| - 1]|
  }

  /** Replacing one bucket changes the total by exactly the change in that bucket's length. */
  lemma {:induction false} TotalUpdate(buckets: seq<seq<PageInfo>>, b: int, t: seq<PageInfo>)
    requires 0 <= b < |buckets|
    ensures Total(buckets[b := t]) + |buckets[b]| == Total(buckets) + |t|
  {
    var n := |buckets| - 1;
    if b == n {
      assert buckets[b := t][..n] == buckets[..n];
    } else {
      assert buckets[b := t][..n] == buckets[..n][b := t];
      TotalUpdate(buckets[..n], b, t);
    }
  }

  /** The entries of all buckets, each counted as often as it occurs. */
  ghost function Entries(buckets: seq<seq<PageInfo>>): multiset<PageInfo>
  {
    if buckets == [] then multiset{} else Entries(buckets[..|buckets| - 1]) + multiset(buckets[|buckets| - 1])
  }

  /** Buckets that are all empty hold no entry. */
  lemma {:induction false} EntriesOfEmpty(buckets: seq<seq<PageInfo>>)
    requires forall b | 0 <= b < |buckets| :: buckets[b] == []
    ensures Entries(buckets) == multiset{}
  {
    if buckets != [] {
      EntriesOfEmpty(buckets[..|buckets| - 1]);
    }
  }

  /** Replacing one bucket swaps that bucket's entries for the new ones and keeps every other entry. */
  lemma {:induction false} EntriesUpdate(buckets: seq<seq<PageInfo>>, b: int, t: seq<PageInfo>)
    requires 0 <= b < |buckets|
    ensures Entries(buckets[b := t]) + multiset(buckets[b]) == Entries(buckets) + multiset(t)
  {
    var n := |buckets| - 1;
    var u := buckets[b := t];
    if b == n {
      assert u[..n] == buckets[..n];
      assert Entries(u) == Entries(buckets[..n]) + multiset(t);
    } else {
      assert u[..n] == buckets[..n][b := t];
      EntriesUpdate(buckets[..n], b, t);
      assert buckets[..n][b] == buckets[b] && u[n] == buckets[n];
      calc {
        Entries(u) + multiset(buckets[b]);
        (Entries(buckets[..n][b := t]) + multiset(buckets[n])) + multiset(buckets[b]);
        (Entries(buckets[..n][b := t]) + multiset(buckets[b])) + multiset(buckets[n]);
        (Entries(buckets[..n]) + multiset(t)) + multiset(buckets[n]);
        (Entries(buckets[..n]) + multiset(buckets[n])) + multiset(t);
      }
    }
  }

  /** Appending an entry to one bucket adds exactly that entry. */
  lemma EntriesAppend(buckets: seq<seq<PageInfo>>, b: int, e: PageInfo)
    requires 0 <= b < |buckets|
    ensures Entries(buckets[b := buckets[b] + [e]]) == Entries(buckets) + multiset{e}
  {
    var s := buckets[b];
    var after := Entries(buckets[b := s + [e]]);
    EntriesUpdate(buckets, b, s + [e]);
    assert multiset(s + [e]) == multiset(s) + multiset{e};
    forall x
      ensures after[x] == (Entries(buckets) + multiset{e})[x]
    {
      assert (after + multiset(s))[x] == (Entries(buckets) + multiset(s + [e]))[x];
    }
  }

  /** Taking entry `j` out of bucket `b` removes exactly that entry. */
  lemma EntriesRemove(buckets: seq<seq<PageInfo>>, b: int, j: int)
    requires 0 <= b < |buckets| && 0 <= j < |buckets[b]|
    ensures Entries(buckets[b := buckets[b][..j] + buckets[b][j + 1..]]) + multiset{buckets[b][j]} == Entries(buckets)
  {
    var s := buckets[b];
    var rest := s[..j] + s[j + 1..];
    var after := Entries(buckets[b := rest]);
    EntriesUpdate(buckets, b, rest);
    var pre, post := s[..j], s[j + 1..];
    assert s == pre + [s[j]] + post;
    assert multiset(s) == multiset(pre) + multiset{s[j]} + multiset(post);
    assert multiset(rest) == multiset(pre) + multiset(post);
    forall x
      ensures (after + multiset{s[j]})[x] == Entries(buckets)[x]
    {
      assert (after + multiset(s))[x] == (Entries(buckets) + multiset(rest))[x];
    }
  }

  /** The bucket `select` starts from: one above the request's bucket, unless that is the last. */
  function StartBucket(spaceSize: int): int
  {
    var n := Bucket(spaceSize);
    if n < INTERVALS_NO then n + 1 else n
  }

  /** The first non-empty bucket from `from` up to the last, if any. */
  function FirstNonEmpty(buckets: seq<seq<PageInfo>>, from: int): (b: Option<int>)
    requires |buckets| == INTERVALS_NO + 1 && from >= 0
    ensures b.Some? ==>
      from <= b.value <= INTERVALS_NO && buckets[b.value] != [] &&
      forall c | from <= c < b.value :: buckets[c] == []
    ensures b.None? ==> forall c | from <= c <= INTERVALS_NO :: buckets[c] == []
    decreases INTERVALS_NO + 1 - from
  {
    if from > INTERVALS_NO then None
    else if buckets[from] != [] then Some(from)
    else FirstNonEmpty(buckets, from + 1)
  }

  /**
   * While the request's bucket is below the last, the page `select` picks has more free space than
   * requested: it comes from a higher bucket.
   */
  lemma SelectedHasRoom(buckets: seq<seq<PageInfo>>, spaceSize: int)
    requires BucketsValid(buckets) && spaceSize >= 0 && Bucket(spaceSize) < INTERVALS_NO
    ensures FirstNonEmpty(buckets, StartBucket(spaceSize)).Some? ==>
      buckets[FirstNonEmpty(buckets, StartBucket(spaceSize)).value][0].freeSpace > spaceSize
  {
    var fb := FirstNonEmpty(buckets, StartBucket(spaceSize));
    if fb.Some? {
      var f := buckets[fb.value][0].freeSpace;
      assert Bucket(f) >= Bucket(spaceSize) + 1;
    }
  }

  /**
   * As written, a request in the last bucket is served from that same bucket, whose pages need not
   * have the requested room: select(8180) picks a page with 8170 bytes free.
   */
  lemma SelectLastBucketTooSmall()
    ensures var buckets := seq(INTERVALS_NO + 1, b => if b == INTERVALS_NO then [PageInfo(2, 8170)] else []);
      && BucketsValid(buckets)
      && FirstNonEmpty(buckets, StartBucket(8180)) == Some(INTERVALS_NO)
      && buckets[INTERVALS_NO][0].freeSpace < 8180
  {
    var buckets := seq(INTERVALS_NO + 1, b => if b == INTERVALS_NO then [PageInfo(2, 8170)] else []);
    assert StartBucket(8180) == INTERVALS_NO;
    assert buckets[INTERVALS_NO] != [];
  }

  /** The first entry of `bucket` with at least `spaceSize` bytes free, if any. */
  function FirstWithRoom(bucket: seq<PageInfo>, spaceSize: int): (j: Option<int>)
    ensures j.Some? ==>
      0 <= j.value < |bucket| && bucket[j.value].freeSpace >= spaceSize &&
      forall k | 0 <= k < j.value :: bucket[k].freeSpace < spaceSize
    ensures j.None? ==> forall k | 0 <= k < |bucket| :: bucket[k].freeSpace < spaceSize
  {
    if bucket == [] then None
    else if bucket[0].freeSpace >= spaceSize then Some(0)
    else match FirstWithRoom(bucket[1..], spaceSize) {
      case None => None
      case Some(k) => Some(k + 1)
    }
  }

  class PageIndex {
    const lists: array<seq<PageInfo>>

    ghost predicate Valid()
      reads this, lists
    {
      BucketsValid(lists[..])
    }

    /** The number of indexed entries. */
    function Size(): nat
      reads this, lists
    {
      Total(lists[..])
    }

    constructor ()
      ensures Valid() && fresh(lists)
      ensures forall b | 0 <= b < lists.Length :: lists[b] == []
      ensures Entries(lists[..]) == multiset{}
    {
      lists := new seq<PageInfo>[INTERVALS_NO + 1](_ => []);
      new;
      EntriesOfEmpty(lists[..]);
    }

    /** `add`: appends the entry to the bucket of its free space, and to no other. */
    method Add(pgno: int, freeSpace: int)
      requires Valid() && 0 <= freeSpace && Bucket(freeSpace) <= INTERVALS_NO
      modifies lists
      ensures Valid()
      ensures lists[..] == old(lists[..])[Bucket(freeSpace) := old(lists[Bucket(freeSpace)]) + [PageInfo(pgno, freeSpace)]]
      ensures Size() == old(Size()) + 1
      ensures Entries(lists[..]) == old(Entries(lists[..])) + multiset{PageInfo(pgno, freeSpace)}
    {
      var number := Bucket(freeSpace);
      var t := lists[number] + [PageInfo(pgno, freeSpace)];
      TotalUpdate(lists[..], number, t);
      EntriesAppend(lists[..], number, PageInfo(pgno, freeSpace));
      BucketsValidUpdate(lists[..], number, t);
      lists[number] := t;
      assert lists[..] == old(lists[..])[number := t];
    }

    /**
     * `select` as written: from StartBucket(spaceSize) upward, the first entry of the first non-empty
     * bucket is removed and returned; None, with nothing changed, when all those buckets are empty.
     */
    method Select(spaceSize: int) returns (r: Option<PageInfo>)
      requires Valid() && spaceSize >= 0
      modifies lists
      ensures Valid()
      ensures match FirstNonEmpty(old(lists[..]), StartBucket(spaceSize)) {
        case None => r == None && lists[..] == old(lists[..])
        case Some(b) =>
          && r == Some(old(lists[b][0]))
          && lists[..] == old(lists[..])[b := old(lists[b][1..])]
          && Size() == old(Size()) - 1
      }
      ensures r.Some? && Bucket(spaceSize) < INTERVALS_NO ==> r.value.freeSpace > spaceSize
      ensures forall b | 0 <= b < lists.Length :: forall e | e in lists[b] :: e in old(lists[b])
      ensures r.Some? ==> 0 <= Bucket(r.value.freeSpace) <= INTERVALS_NO && r.value in old(lists[Bucket(r.value.freeSpace)])
      ensures r.Some? ==> Entries(lists[..]) + multiset{r.value} == old(Entries(lists[..]))
    {
      if Bucket(spaceSize) < INTERVALS_NO {
        SelectedHasRoom(lists[..], spaceSize);
      }
      var number := Bucket(spaceSize);
      if number < INTERVALS_NO {
        number := number + 1;
      }
      while number <= INTERVALS_NO
        invariant StartBucket(spaceSize) <= number
        invariant FirstNonEmpty(lists[..], StartBucket(spaceSize)) == FirstNonEmpty(lists[..], number)
      {
        if |lists[number]| == 0 {
          number := number + 1;
          continue;
        }
        r := Some(lists[number][0]);
        assert Bucket(r.value.freeSpace) == number;
        RemoveFirst(number);
        return;
      }
      r := None;
    }

    /** The first entry of the last bucket with `spaceSize` bytes free is removed and returned. */
    method SelectInLast(spaceSize: int) returns (r: Option<PageInfo>)
      requires Valid()
      modifies lists
      ensures Valid()
      ensures match FirstWithRoom(old(lists[INTERVALS_NO]), spaceSize) {
        case None => r == None && lists[..] == old(lists[..])
        case Some(j) =>
          && r == Some(old(lists[INTERVALS_NO][j]))
          && lists[..] == old(lists[..])[INTERVALS_NO := old(lists[INTERVALS_NO][..j] + lists[INTERVALS_NO][j + 1..])]
          && Size() == old(Size()) - 1
      }
      ensures forall b | 0 <= b < lists.Length :: forall e | e in lists[b] :: e in old(lists[b])
      ensures r.Some? ==> 0 <= Bucket(r.value.freeSpace) <= INTERVALS_NO && r.value in old(lists[Bucket(r.value.freeSpace)])
      ensures r.Some? ==> Entries(lists[..]) + multiset{r.value} == old(Entries(lists[..]))
    {
      var last := lists[INTERVALS_NO];
      var j := 0;
      while j < |last| && last[j].freeSpace < spaceSize
        invariant 0 <= j <= |last|
        invariant forall k | 0 <= k < j :: last[k].freeSpace < spaceSize
      {
        j := j + 1;
      }
      if j == |last| {
        assert FirstWithRoom(last, spaceSize) == None;
        r := None;
        return;
      }
      assert FirstWithRoom(last, spaceSize) == Some(j);
      r := Some(last[j]);
      assert Bucket(r.value.freeSpace) == INTERVALS_NO;
      RemoveFromLast(j);
    }

    /** The first entry of bucket `b` is taken out; the other entries keep their order. */
    method RemoveFirst(b: int)
      requires Valid() && 0 <= b < lists.Length && lists[b] != []
      modifies lists
      ensures Valid() && Size() == old(Size()) - 1
      ensures lists[..] == old(lists[..])[b := old(lists[b][1..])]
      ensures Entries(lists[..]) + multiset{old(lists[b][0])} == old(Entries(lists[..]))
      ensures forall c | 0 <= c < lists.Length :: forall e | e in lists[c] :: e in old(lists[c])
    {
      ghost var before := lists[..];
      var t := lists[b][1..];
      assert forall e | e in t :: e in before[b];
      TotalUpdate(before, b, t);
      EntriesRemove(before, b, 0);
      assert before[b][..0] + before[b][1..] == t;
      BucketsValidUpdate(before, b, t);
      lists[b] := t;
      assert lists[..] == before[b := t];
    }

    /** Entry `j` of the last bucket is taken out; the other entries keep their order. */
    method RemoveFromLast(j: int)
      requires Valid() && 0 <= j < |lists[INTERVALS_NO]|
      modifies lists
      ensures Valid() && Size() == old(Size()) - 1
      ensures lists[..] == old(lists[..])[INTERVALS_NO := old(lists[INTERVALS_NO][..j] + lists[INTERVALS_NO][j + 1..])]
      ensures forall e | e in lists[INTERVALS_NO] :: e in old(lists[INTERVALS_NO])
      ensures Entries(lists[..]) + multiset{old(lists[INTERVALS_NO][j])} == old(Entries(lists[..]))
    {
      var last := lists[INTERVALS_NO];
      var rest := last[..j] + last[j + 1..];
      assert forall e | e in rest :: e in last;
      TotalUpdate(lists[..], INTERVALS_NO, rest);
      EntriesRemove(lists[..], INTERVALS_NO, j);
      BucketsValidUpdate(lists[..], INTERVALS_NO, rest);
      lists[INTERVALS_NO] := rest;
      assert lists[..] == old(lists[..])[INTERVALS_NO := rest];
    }

    /**
     * `select` as evidently intended: as written while the request's bucket is below the last; a
     * request in the last bucket takes the first entry there that really has `spaceSize` bytes free.
     */
    method SelectWithRoom(spaceSize: int) returns (r: Option<PageInfo>)
      requires Valid() && spaceSize >= 0
      modifies lists
      ensures Valid()
      ensures r.Some? ==> r.value.freeSpace >= spaceSize && Size() == old(Size()) - 1
      ensures r.None? ==> lists[..] == old(lists[..])
      ensures Bucket(spaceSize) < INTERVALS_NO ==>
        match FirstNonEmpty(old(lists[..]), StartBucket(spaceSize)) {
          case None => r == None
          case Some(b) => r == Some(old(lists[b][0])) && lists[..] == old(lists[..])[b := old(lists[b][1..])]
        }
      ensures Bucket(spaceSize) >= INTERVALS_NO ==>
        match FirstWithRoom(old(lists[INTERVALS_NO]), spaceSize) {
          case None => r == None
          case Some(j) =>
            && r == Some(old(lists[INTERVALS_NO][j]))
            && lists[..] == old(lists[..])[INTERVALS_NO := old(lists[INTERVALS_NO][..j] + lists[INTERVALS_NO][j + 1..])]
        }
      ensures forall b | 0 <= b < lists.Length :: forall e | e in lists[b] :: e in old(lists[b])
      ensures r.Some? ==> 0 <= Bucket(r.value.freeSpace) <= INTERVALS_NO && r.value in old(lists[Bucket(r.value.freeSpace)])
      ensures (exists e :: e in old(lists[INTERVALS_NO]) && e.freeSpace >= spaceSize) ==> r.Some?
      ensures r.Some? ==> Entries(lists[..]) + multiset{r.value} == old(Entries(lists[..]))
    {
      if Bucket(spaceSize) < INTERVALS_NO {
        r := Select(spaceSize);
      } else {
        r := SelectInLast(spaceSize);
      }
    }
  }
}
