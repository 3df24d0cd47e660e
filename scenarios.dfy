/** Call sequences over the reader, with what bufferlib.c makes of them. */
module StoreScenarios {
  import opened CArith
  import opened BufferLib

  /** Right after a successful `utmp_open` the sentinel range [-1, -1] makes
      index -1 a hit: `utmp_getrec(-1)` returns slot 0 without any I/O, even
      though -1 is no record of the file. */
  method SentinelHitAfterOpen(f: UtmpFile, nrecs: nat, utsize: nat) returns (r: Option<nat>, reloads: int)
    requires nrecs > 0 && utsize > 0 && WellSized(f, utsize)
    ensures r == Some(0) && reloads == 0
  {
    var store := new RecordStore(nrecs, utsize);
    var ok := store.Open(Some(f));
    r := store.GetRec(-1, false, false);
    reloads := store.bufferReloads;
  }

  /** Two records of one page cost a single reload, each call delivers the
      record asked for, and the efficiency report then reads [0, 1]:
      `records_read` stays 0. */
  method OneReloadPerPage(f: UtmpFile, nrecs: nat, utsize: nat, i: nat, j: nat)
    returns (first: Record, second: Record, stats: seq<int>)
    requires nrecs > 0 && utsize > 0 && WellSized(f, utsize)
    requires i < |f.records| && j < |f.records| && i / nrecs == j / nrecs
    ensures first == f.records[i] && second == f.records[j]
    ensures stats == [0, 1]
  {
    var store := new RecordStore(nrecs, utsize);
    var ok := store.Open(Some(f));
    assert !store.Resident(i) && store.SeekSucceeds(i, true);
    var ri := store.GetRec(i, true, true);
    assert store.bufferReloads == 1;
    first := store.utmpbuf[ri.value];
    assert PageStart(j, nrecs) == PageStart(i, nrecs);
    PageHolds(f, j, nrecs, utsize);
    assert store.Resident(j);
    var rj := store.GetRec(j, true, true);
    second := store.utmpbuf[rj.value];
    assert store.bufferReloads == 1;
    var a := new int[2];
    store.Stats(a);
    stats := [a[0], a[1]];
  }

  /** `utmp_close` twice: the second call finds the descriptor closed and
      returns 0, whatever `close(2)` did the first time. */
  method CloseTwice(f: UtmpFile, nrecs: nat, utsize: nat, closeOk: bool) returns (first: int, second: int)
    requires nrecs > 0 && utsize > 0 && WellSized(f, utsize)
    ensures first == (if closeOk then 0 else -1) && second == 0
  {
    var store := new RecordStore(nrecs, utsize);
    var ok := store.Open(Some(f));
    first := store.Close(closeOk);
    second := store.Close(false);
  }

  /** A failed `utmp_open` still resets the resident range and the counters,
      after any earlier use of the reader. */
  method FailedOpenResets(f: UtmpFile, nrecs: nat, utsize: nat, index: int)
    returns (ok: bool, start: int, end: int, reloads: int)
    requires nrecs > 0 && utsize > 0 && WellSized(f, utsize)
    ensures !ok && start == -1 && end == -1 && reloads == 0
  {
    var store := new RecordStore(nrecs, utsize);
    ok := store.Open(Some(f));
    var r := store.GetRec(index, true, true);
    ok := store.Open(None);
    start, end, reloads := store.bufferStart, store.bufferEnd, store.bufferReloads;
  }

  /** The last record of the page starting at `page` in a file of `n`
      records. */
  function PageEnd(page: nat, nrecs: nat, n: nat): int
  {
    if page + nrecs <= n then page + nrecs - 1 else n - 1
  }

  /** Where a backward scan stands once it has fetched every index from
      `n - 1` down to `i`: nothing yet when i == n, else the page holding i is
      resident and one reload has been spent per page touched. */
  ghost predicate ScanState(store: RecordStore, i: nat, n: nat)
    reads store
    requires store.nrecs > 0
  {
    var u := store.nrecs;
    && (i == n ==> store.bufferStart == -1 && store.bufferEnd == -1 && store.bufferReloads == 0)
    && (i < n ==> && store.bufferStart == (i / u) * u
                  && store.bufferEnd == PageEnd((i / u) * u, u, n)
                  && store.bufferReloads == (n - 1) / u - i / u + 1)
  }

  /** One fetch of the backward scan. */
  method ScanStep(store: RecordStore, i: nat) returns (rec: Record)
    requires store.Valid() && store.isOpen
    requires 0 < i <= |store.file.records| && ScanState(store, i, |store.file.records|)
    modifies store`bufferStart, store`bufferEnd, store`bufferReloads, store`position, store`loaded, store.utmpbuf
    ensures store.Valid() && store.isOpen && store.file == old(store.file)
    ensures rec == store.file.records[i - 1]
    ensures ScanState(store, i - 1, |store.file.records|)
  {
    var n, u := |store.file.records|, store.nrecs;
    var next := i - 1;
    DivBounds(next, u);
    DivBounds(i, u);
    assert PageStart(next, u) == (next / u) * u;
    if i < n && store.bufferStart <= next {
      // still inside the page of i: a hit
      SameQuotient(next, i, u);
      assert store.Resident(next);
      var r := store.GetRec(next, true, true);
      rec := store.utmpbuf[r.value];
    } else {
      // the first fetch, or the first index below the page of i: a reload
      if i < n {
        QuotientBelowMultiple(i, u);
      }
      ghost var reloadsBefore := store.bufferReloads;
      assert reloadsBefore + 1 == (n - 1) / u - next / u + 1;
      assert !store.Resident(next) && store.SeekSucceeds(next, true);
      var r := store.GetRec(next, true, true);
      rec := store.utmpbuf[r.value];
      assert store.bufferReloads == reloadsBefore + 1;
      assert store.bufferStart == (next / u) * u;
    }
  }

  /** `utmp_open` followed by `utmp_len`, both succeeding, on a file whose
      record count fits an `int`. */
  method OpenAndCount(f: UtmpFile, nrecs: nat, utsize: nat) returns (store: RecordStore, n: int)
    requires nrecs > 0 && utsize > 0 && WellSized(f, utsize)
    requires f.size < TWO64 && |f.records| <= INT_MAX
    ensures fresh(store) && fresh(store.utmpbuf)
    ensures store.Valid() && store.isOpen && store.file == f
    ensures store.nrecs == nrecs && store.utsize == utsize
    ensures n == |f.records| && ScanState(store, n, n)
  {
    store := new RecordStore(nrecs, utsize);
    var ok := store.Open(Some(f));
    n := store.Len(true, true);
    RecordCountOfFile(f, utsize);
  }

  /** The records of `s` newest first, the order in which a backward scan
      delivers them: the last record first, the first record last. */
  function NewestFirst(s: seq<Record>): (r: seq<Record>)
    ensures |r| == |s|
    ensures forall k :: 0 <= k < |s| ==> r[k] == s[|s| - 1 - k]
  {
    if s == [] then [] else NewestFirst(s[1..]) + [s[0]]
  }

  /** The access pattern the library is designed for, listing logins newest
      first: `utmp_len`, then `utmp_getrec` on every index from the last
      record down to the first.
      With every seek and read succeeding, the scan delivers the file's
      records newest first and reloads exactly once per page: the number of
      records divided by NRECS, rounded up. */
  method ScanBackward(f: UtmpFile, nrecs: nat, utsize: nat) returns (recs: seq<Record>, reloads: int)
    requires nrecs > 0 && utsize > 0 && WellSized(f, utsize)
    requires f.size < TWO64 && |f.records| <= INT_MAX
    ensures recs == NewestFirst(f.records)
    ensures reloads == (|f.records| + nrecs - 1) / nrecs
  {
    var store, n := OpenAndCount(f, nrecs, utsize);
    var i := n;
    recs := [];
    while i > 0
      invariant 0 <= i <= n == |f.records|
      invariant store.Valid() && store.isOpen && store.file == f
      invariant store.nrecs == nrecs && store.utsize == utsize
      invariant ScanState(store, i, n)
      invariant recs == NewestFirst(f.records[i..])
    {
      var rec := ScanStep(store, i);
      assert f.records[i - 1..][1..] == f.records[i..];
      recs := recs + [rec];
      i := i - 1;
    }
    assert f.records[0..] == f.records;
    assert ScanState(store, 0, n);
    reloads := store.bufferReloads;
    ScanCost(n, nrecs, reloads);
  }

  /** The reload count a completed scan leaves is the number of pages. */
  lemma ScanCost(n: nat, u: nat, reloads: int)
    requires u > 0
    requires n == 0 ==> reloads == 0
    requires n > 0 ==> reloads == (n - 1) / u - 0 / u + 1
    ensures reloads == (n + u - 1) / u
  {
    if n > 0 {
      PagesRoundedUp(n, u);
    } else {
      DivMulPlus(0, u, u - 1);
    }
  }
}
