/** The paged random-access reader of bufferlib.c: a flat file of fixed-size
    `struct utmp` records served one page of NRECS records at a time. */
module BufferLib {
  import opened CArith

  datatype Option<T> = None | Some(value: T)

  /** One `struct utmp` record. The reader never looks inside a record; the
      fields only give records an identity. */
  datatype Record = Record(kind: int, pid: int, line: string, id: string, user: string, host: string, time: int)

  /** An accounting file as the reader sees it: its length in bytes and the
      whole records it holds, in file order. */
  datatype UtmpFile = UtmpFile(records: seq<Record>, size: nat)

  /** NRECS as bufferlib.c defines it (line 21). */
  const SOURCE_NRECS: nat := 2
  /** `sizeof(struct utmp)` with the GNU C library on Linux. */
  const GLIBC_UTSIZE: nat := 384

  /** The records are exactly the whole `utsize`-byte records of the file's
      bytes; a trailing partial record is not one of them. */
  predicate WellSized(f: UtmpFile, utsize: nat)
    requires utsize > 0
  {
    |f.records| == f.size / utsize
  }

  /** The first record of the page that holds `index`, `(index/NRECS)*NRECS`
      with C's truncating division (line 91). */
  function PageStart(index: int, nrecs: nat): (p: int)
    requires nrecs > 0
    ensures p % nrecs == 0
    ensures 0 <= index ==> 0 <= p <= index < p + nrecs
    ensures index < 0 ==> p - nrecs < index <= p <= 0
  {
    MulMod(CDiv(index, nrecs), nrecs);
    CDiv(index, nrecs) * nrecs
  }

  /** What `read(2)` delivers from a regular file of `size` bytes whose read
      position is `offset`, when `request` bytes are asked for: everything
      asked for, or else all that is left before end-of-file. */
  function ReadLength(size: nat, offset: nat, request: nat): (n: nat)
    ensures n <= request
    ensures n == 0 || offset + n <= size
    ensures n < request ==> size <= offset + n
  {
    if offset >= size then 0
    else if size - offset < request then size - offset
    else request
  }

  /** The number of whole records a page read starting at record `page`
      delivers, `bytes_read/UTSIZE` (lines 96 and 103): a full page while the
      file lasts, then what is left of it, then nothing. */
  function PageRecords(f: UtmpFile, page: nat, nrecs: nat, utsize: nat): (k: nat)
    requires utsize > 0 && WellSized(f, utsize)
    ensures k == if page + nrecs <= |f.records| then nrecs
                 else if page <= |f.records| then |f.records| - page
                 else 0
  {
    PageReadLength(f, page, nrecs, utsize);
    ReadLength(f.size, page * utsize, nrecs * utsize) / utsize
  }

  lemma PageReadLength(f: UtmpFile, page: nat, nrecs: nat, utsize: nat)
    requires utsize > 0 && WellSized(f, utsize)
    ensures ReadLength(f.size, page * utsize, nrecs * utsize) / utsize
            == if page + nrecs <= |f.records| then nrecs
               else if page <= |f.records| then |f.records| - page
               else 0
  {
    var n := |f.records|;
    var u := utsize;
    var t := f.size % u;
    assert f.size == n * u + t;
    var off := page * u;
    var req := nrecs * u;
    var len := ReadLength(f.size, off, req);
    if page + nrecs <= n {
      MulLe(page + nrecs, n, u);
      MulAdd(page, nrecs, u);
      assert off + req <= f.size;
      assert len == req;
      DivMulPlus(nrecs, u, 0);
    } else if page <= n {
      MulAdd(page, n - page, u);
      assert f.size - off == (n - page) * u + t;
      MulLe(n - page + 1, nrecs, u);
      MulAdd(n - page, 1, u);
      assert f.size - off < req;
      assert len == (n - page) * u + t;
      DivMulPlus(n - page, u, t);
    } else {
      MulLe(n + 1, page, u);
      MulAdd(n, 1, u);
      assert f.size < off;
      assert len == 0;
    }
  }

  /** The page reloaded for `index` holds it exactly when `index` is a record
      of the file. */
  lemma PageHolds(f: UtmpFile, index: int, nrecs: nat, utsize: nat)
    requires nrecs > 0 && utsize > 0 && WellSized(f, utsize)
    requires PageStart(index, nrecs) >= 0
    ensures var page := PageStart(index, nrecs);
            (page <= index <= page + PageRecords(f, page, nrecs, utsize) - 1)
            <==> 0 <= index < |f.records|
  {
  }

  /** `num_recs = file_size_bytes/UTSIZE` (line 79): the signed byte count is
      converted to `size_t`, divided, and the quotient is stored in an `int`. */
  function RecordCount(sizeBytes: int, utsize: nat): (n: int)
    requires utsize > 0
    ensures INT_MIN <= n <= INT_MAX
    ensures 0 <= sizeBytes <= INT_MAX ==> 0 <= n * utsize <= sizeBytes < n * utsize + utsize
  {
    var n := ToInt32(ToSize(sizeBytes) / utsize);
    if 0 <= sizeBytes <= INT_MAX then
      DivBounds(sizeBytes, utsize);
      MulLe(1, utsize, sizeBytes / utsize);
      n
    else n
  }

  /** A file of `n` whole records followed by `t` stray bytes counts `n`
      records: the partial record is dropped. */
  lemma RecordCountDropsPartial(n: nat, t: nat, utsize: nat)
    requires t < utsize
    requires n * utsize + t < TWO64 && n <= INT_MAX
    ensures RecordCount(n * utsize + t, utsize) == n
  {
    DivMulPlus(n, utsize, t);
  }

  /** For a file whose size the model knows, the count is its record count. */
  lemma RecordCountOfFile(f: UtmpFile, utsize: nat)
    requires utsize > 0 && WellSized(f, utsize)
    requires f.size < TWO64 && |f.records| <= INT_MAX
    ensures RecordCount(f.size, utsize) == |f.records|
  {
    assert f.size == |f.records| * utsize + f.size % utsize;
    RecordCountDropsPartial(|f.records|, f.size % utsize, utsize);
  }

  /** When the end-of-file seek fails, `file_size_bytes` is -1 and line 79
      turns it into a large count rather than an error. */
  lemma RecordCountAfterFailedEndSeek()
    ensures RecordCount(-1, GLIBC_UTSIZE) == -1431655766
  {
    assert ToSize(-1) == TWO64 - 1;
    assert (TWO64 - 1) / GLIBC_UTSIZE == 48038396025285290;
  }

  /** `buffer_start` as line 102 literally computes it,
      `(index/NRECS)*UTSIZE`: the page number times the record size in
      bytes, where line 91 and the range check use the page floor. The `int`
      quotient meets `sizeof`, so it is converted to `size_t`, the product is
      taken modulo 2^64, and the result is stored back into the `int`. A
      product that fits the `int` is kept as it is. */
  function LiteralBufferStart(index: int, nrecs: nat, utsize: nat): (start: int)
    requires nrecs > 0 && utsize > 0
    ensures INT_MIN <= start <= INT_MAX
    ensures 0 <= CDiv(index, nrecs) && CDiv(index, nrecs) * utsize <= INT_MAX ==>
              start == CDiv(index, nrecs) * utsize
  {
    var q := CDiv(index, nrecs);
    var start := ToInt32(ToSize(ToSize(q) * utsize));
    if 0 <= q && q * utsize <= INT_MAX then
      MulLe(1, utsize, q);
      start
    else start
  }

  /** `buffer_end` as line 103 literally computes it after a read of `k`
      whole records: `k - 1` is `size_t` arithmetic, so an empty read gives
      `SIZE_MAX`, the sum with the converted start is taken modulo 2^64, and
      the result is stored into the `int`. Whenever `start + k - 1` fits the
      `int` that is the value stored. */
  function LiteralBufferEnd(start: int, k: nat): (end: int)
    ensures INT_MIN <= end <= INT_MAX
    ensures INT_MIN <= start + k - 1 <= INT_MAX ==> end == start + k - 1
  {
    var y := ToSize(ToSize(start) + ToSize(k - 1));
    ToInt32Congruent(y, start + k - 1);
    ToInt32(y)
  }

  /** Whether the range check of line 106 lets `index` through after a reload
      of `k` records, taken with the literal start and end of lines 102-103.
      After an empty read it refuses every index, unless the start wrapped
      around to INT_MIN. */
  predicate LiteralRangeHolds(index: int, nrecs: nat, utsize: nat, k: nat): (holds: bool)
    requires nrecs > 0 && utsize > 0
    ensures k == 0 && LiteralBufferStart(index, nrecs, utsize) != INT_MIN ==> !holds
  {
    var start := LiteralBufferStart(index, nrecs, utsize);
    start <= index <= LiteralBufferEnd(start, k)
  }

  /** Beyond the first page the literal start is not the page floor whenever
      the record size differs from NRECS and the page's byte offset fits the
      `int`. */
  lemma LiteralStartDiffers(index: int, nrecs: nat, utsize: nat)
    requires nrecs > 0 && utsize > 0 && index >= nrecs && utsize != nrecs
    requires CDiv(index, nrecs) * utsize <= INT_MAX
    ensures LiteralBufferStart(index, nrecs, utsize) != PageStart(index, nrecs)
  {
    var q := CDiv(index, nrecs);
    assert q >= 1 by {
      if q <= 0 {
        MulLe(q, 0, nrecs);
        assert false;
      }
    }
    if utsize < nrecs {
      assert q * utsize < q * nrecs by { MulLe(utsize + 1, nrecs, q); MulAdd(utsize, 1, q); }
    } else {
      assert q * nrecs < q * utsize by { MulLe(nrecs + 1, utsize, q); MulAdd(nrecs, 1, q); }
    }
  }

  /** With a record size of at least two pages' worth of records, as with
      NRECS = 2 and a 384-byte `struct utmp`, the literal start lies past every
      index outside the first page as long as it fits the `int`, so line 106
      returns NULL for all of them, whatever the read delivered. */
  lemma LiteralStartRejects(index: int, nrecs: nat, utsize: nat, k: nat)
    requires nrecs > 0 && utsize >= 2 * nrecs && index >= nrecs && k <= nrecs
    requires CDiv(index, nrecs) * utsize <= INT_MAX
    ensures !LiteralRangeHolds(index, nrecs, utsize, k)
  {
    var q := CDiv(index, nrecs);
    assert q >= 1 by {
      if q <= 0 {
        MulLe(q, 0, nrecs);
        assert false;
      }
    }
    MulLe(2 * nrecs, utsize, q);
    MulLe(1, q, nrecs);
    assert q * nrecs + nrecs <= 2 * nrecs * q;
    assert LiteralBufferStart(index, nrecs, utsize) == q * utsize;
  }

  /** With the source's constants every index from 2 up to 11184811, the last
      whose page offset 5592405 * 384 fits the `int`, is refused. */
  lemma SourceLiteralRejects(index: int, k: nat)
    requires SOURCE_NRECS <= index <= 11184811 && k <= SOURCE_NRECS
    ensures !LiteralRangeHolds(index, SOURCE_NRECS, GLIBC_UTSIZE, k)
  {
    var q := CDiv(index, SOURCE_NRECS);
    MulLe(q, 5592405, GLIBC_UTSIZE);
    LiteralStartRejects(index, SOURCE_NRECS, GLIBC_UTSIZE, k);
  }

  /** Past that bound the narrowing of line 102 wraps around. Index 2^25 lies
      on page 2^24, whose byte offset 2^24 * 384 is stored as INT_MIN. In a
      file of at most 2^25 records the read at that page delivers nothing, so
      line 103 stores `INT_MIN + SIZE_MAX` as INT_MAX. The range check of line
      106 then passes, and line 107 addresses `utmpbuf` far outside the page
      instead of returning NULL. */
  lemma LiteralStartWraps(f: UtmpFile)
    requires WellSized(f, GLIBC_UTSIZE) && |f.records| <= 33554432
    ensures PageStart(33554432, SOURCE_NRECS) == 33554432
    ensures PageRecords(f, 33554432, SOURCE_NRECS, GLIBC_UTSIZE) == 0
    ensures LiteralBufferStart(33554432, SOURCE_NRECS, GLIBC_UTSIZE) == INT_MIN
    ensures LiteralBufferEnd(INT_MIN, 0) == INT_MAX
    ensures LiteralRangeHolds(33554432, SOURCE_NRECS, GLIBC_UTSIZE, 0)
    ensures 33554432 - LiteralBufferStart(33554432, SOURCE_NRECS, GLIBC_UTSIZE) >= SOURCE_NRECS
  {
    assert CDiv(33554432, SOURCE_NRECS) == 16777216;
    assert ToSize(16777216) * GLIBC_UTSIZE == 6442450944;
    assert ToSize(ToSize(INT_MIN) + ToSize(-1)) == TWO64 + INT_MIN - 1;
  }

  /** With a record size just above NRECS the literal start can instead land
      inside the page and return the wrong slot: index 7 with NRECS = 4 and
      5-byte records passes the check as slot 7 - 5 = 2, which holds record 6. */
  lemma LiteralStartMisplaces()
    ensures PageStart(7, 4) == 4 && LiteralBufferStart(7, 4, 5) == 5
    ensures LiteralRangeHolds(7, 4, 5, 4)
    ensures PageStart(7, 4) + (7 - LiteralBufferStart(7, 4, 5)) == 6
  {
  }

  /** The reader's module-level state (lines 24-31) as one object. The
      unused `buffer_size` (line 32) is not kept. */
  class RecordStore {
    /** NRECS (line 21), at least 1. */
    const nrecs: nat
    /** UTSIZE, `sizeof(struct utmp)` (line 22), at least 1. */
    const utsize: nat
    /** `utmpbuf`, the resident page (line 24). */
    const utmpbuf: array<Record>
    var numRecs: int
    var bufferStart: int
    var bufferEnd: int
    /** `fd_utmp != -1`. */
    var isOpen: bool
    /** The file `fd_utmp` refers to, or last referred to. */
    var file: UtmpFile
    /** The read position of `fd_utmp`, in bytes. */
    var position: int
    var fileSizeBytes: int
    var bufferReloads: int
    var recordsRead: int
    /** The resident range was set by a reload from `file` (rather than being
        the value the statics start with or the sentinel `utmp_open` sets). */
    ghost var loaded: bool

    ghost predicate Valid()
      reads this, utmpbuf
    {
      && nrecs > 0 && utsize > 0 && utmpbuf.Length == nrecs
      && WellSized(file, utsize)
      && recordsRead == 0 && bufferReloads >= 0
      && (loaded ==>
            && 0 <= bufferStart <= bufferEnd + 1
            && (bufferStart <= bufferEnd ==> bufferEnd < |file.records|)
            && bufferEnd - bufferStart < nrecs
            && forall i :: bufferStart <= i <= bufferEnd ==> utmpbuf[i - bufferStart] == file.records[i])
      && (!loaded ==>
            && bufferStart == bufferEnd
            && (if isOpen then bufferStart == -1 else -1 <= bufferStart <= 0))
    }

    /** `index` lies in the resident range: the test of line 87. */
    predicate Resident(index: int): (r: bool)
      reads this, utmpbuf
      ensures r && Valid() ==> 0 <= index - bufferStart < utmpbuf.Length
    {
      bufferStart <= index <= bufferEnd
    }

    /** The seek of line 91 succeeds: the descriptor is open, the system
        grants it, and the offset is not negative. With C's truncating
        division that admits the indices above -NRECS. */
    predicate SeekSucceeds(index: int, seekOk: bool): (r: bool)
      reads this
      requires nrecs > 0
      ensures r <==> isOpen && seekOk && index > -(nrecs as int)
    {
      isOpen && seekOk && PageStart(index, nrecs) >= 0
    }

    /** The statics as the C runtime sets them before any call: all zero,
        with `fd_utmp` at -1. */
    constructor (nrecs: nat, utsize: nat)
      requires nrecs > 0 && utsize > 0
      ensures Valid() && fresh(utmpbuf)
      ensures this.nrecs == nrecs && this.utsize == utsize
      ensures !isOpen && !loaded && file == UtmpFile([], 0) && position == 0
      ensures bufferStart == 0 && bufferEnd == 0
      ensures numRecs == 0 && fileSizeBytes == 0 && bufferReloads == 0 && recordsRead == 0
    {
      this.nrecs := nrecs;
      this.utsize := utsize;
      utmpbuf := new Record[nrecs];
      numRecs, bufferStart, bufferEnd := 0, 0, 0;
      isOpen, file, position := false, UtmpFile([], 0), 0;
      fileSizeBytes, bufferReloads, recordsRead := 0, 0, 0;
      loaded := false;
    }

    /** `utmp_open` (lines 41-47). `target` is what `open(2)` finds: the file,
        or None when it fails. Whatever the outcome, the range becomes the
        sentinel [-1, -1] and the counters become zero. */
    method Open(target: Option<UtmpFile>) returns (ok: bool)
      requires Valid()
      requires target.Some? ==> WellSized(target.value, utsize)
      modifies this
      ensures Valid()
      ensures ok == target.Some? && isOpen == ok
      ensures file == (if ok then target.value else old(file))
      ensures position == (if ok then 0 else old(position))
      ensures bufferStart == -1 && bufferEnd == -1
      ensures numRecs == 0 && bufferReloads == 0 && recordsRead == 0
      ensures fileSizeBytes == old(fileSizeBytes)
      ensures utmpbuf[..] == old(utmpbuf[..])
    {
      ok := target.Some?;
      if ok {
        isOpen, file, position := true, target.value, 0;
      } else {
        isOpen := false;
      }
      bufferStart, bufferEnd := -1, -1;
      numRecs, bufferReloads, recordsRead := 0, 0, 0;
      loaded := false;
    }

    /** `utmp_close` (lines 54-62). `closeOk` is the outcome of `close(2)`.
        Only an open descriptor is closed; otherwise the call returns 0 and
        changes nothing. */
    method Close(closeOk: bool) returns (rv: int)
      requires Valid()
      modifies this`isOpen
      ensures Valid() && !isOpen
      ensures rv == (if old(isOpen) && !closeOk then -1 else 0)
      ensures !old(isOpen) ==> rv == 0 && unchanged(this)
    {
      rv := 0;
      if isOpen {
        rv := if closeOk then 0 else -1;
        isOpen := false;
      }
    }

    /** `utmp_len` (lines 68-82). `endSeekOk` and `rewindOk` are what the
        system grants the seeks to end-of-file and back to the start. A failed
        first seek is only reported (`file_size_bytes` becomes -1); a failed
        rewind returns -1. */
    method Len(endSeekOk: bool, rewindOk: bool) returns (n: int)
      requires Valid()
      modifies this`fileSizeBytes, this`numRecs, this`position
      ensures Valid()
      ensures fileSizeBytes == (if isOpen && endSeekOk then file.size else -1)
      ensures isOpen && rewindOk ==>
                n == numRecs == RecordCount(fileSizeBytes, utsize) && position == 0
      ensures !(isOpen && rewindOk) ==>
                n == -1 && numRecs == old(numRecs)
                && position == (if isOpen && endSeekOk then file.size else old(position))
    {
      if isOpen && endSeekOk {
        fileSizeBytes := file.size;
        position := file.size;
      } else {
        fileSizeBytes := -1;
      }
      if !(isOpen && rewindOk) {
        n := -1;
        return;
      }
      position := 0;
      numRecs := RecordCount(fileSizeBytes, utsize);
      n := numRecs;
    }

    /** `utmp_getrec` (lines 84-111), returning the slot of `utmpbuf` the C
        pointer addresses, or None for NULL. `seekOk` and `readOk` are what
        the system grants the seek of line 91 and the read of line 96.
        The reload starts the range at the page floor, as the seek of line 91
        does; line 102 literally sets `(index/NRECS)*UTSIZE` instead, which
        `LiteralBufferStart` models. */
    method GetRec(index: int, seekOk: bool, readOk: bool) returns (r: Option<nat>)
      requires Valid()
      modifies this`bufferStart, this`bufferEnd, this`bufferReloads, this`position, this`loaded, utmpbuf
      ensures Valid()
      ensures r.Some? ==> r.value < nrecs
      // a hit: the slot, with no I/O and nothing changed
      ensures old(Resident(index)) ==>
                r == Some(index - bufferStart) && unchanged(this) && unchanged(utmpbuf)
      // the seek fails
      ensures !old(Resident(index)) && !SeekSucceeds(index, seekOk) ==>
                r == None && unchanged(this) && unchanged(utmpbuf)
      // the seek succeeds and the read fails
      ensures !old(Resident(index)) && SeekSucceeds(index, seekOk) && !readOk ==>
                && r == None
                && position == PageStart(index, nrecs) * utsize
                && bufferStart == old(bufferStart) && bufferEnd == old(bufferEnd)
                && bufferReloads == old(bufferReloads) && loaded == old(loaded)
                && unchanged(utmpbuf)
      // a reload of the page holding index
      ensures !old(Resident(index)) && SeekSucceeds(index, seekOk) && readOk ==>
                var page := PageStart(index, nrecs);
                var bytes := ReadLength(file.size, page * utsize, nrecs * utsize);
                var k := PageRecords(file, page, nrecs, utsize);
                && bufferReloads == old(bufferReloads) + 1
                && bufferStart == page && bufferEnd == page + k - 1 && loaded
                && position == page * utsize + bytes
                && (forall j :: 0 <= j < k ==> utmpbuf[j] == file.records[page + j])
                && (forall j :: k <= j < nrecs && (k < j || bytes % utsize == 0) ==>
                      utmpbuf[j] == old(utmpbuf[j]))
                && r == (if page <= index <= bufferEnd then Some(index - page) else None)
      // what a caller sees: the slot holds file record index, ...
      ensures r.Some? && 0 <= index && (isOpen || loaded) ==>
                index < |file.records| && utmpbuf[r.value] == file.records[index]
      // ... every record of the file is delivered when the I/O succeeds, ...
      ensures isOpen && seekOk && readOk && 0 <= index < |file.records| ==> r.Some?
      // ... and no index outside the file is, except the sentinel -1
      ensures isOpen && (index < -1 || |file.records| <= index) ==> r == None
    {
      if bufferStart <= index <= bufferEnd {
        r := Some(index - bufferStart);
        assert 0 <= index && (isOpen || loaded) ==> loaded && utmpbuf[index - bufferStart] == file.records[index];
        return;
      }
      var page := PageStart(index, nrecs);
      if !(isOpen && seekOk && page >= 0) {
        r := None;
        return;
      }
      var offset := page * utsize;
      position := offset;
      if !readOk {
        r := None;
        return;
      }
      var k := LoadPage(page);
      PageHolds(file, index, nrecs, utsize);
      if bufferStart <= index <= bufferEnd {
        r := Some(index - bufferStart);
      } else {
        r := None;
      }
    }

    /** The reload of lines 96 and 100-103 once the seek has put the read
        position at record `page`: the read fills the first slots of the
        page with the whole records it delivered, and the range becomes
        [page, page + k - 1]. A partial record at the end of what was read
        overwrites part of slot k, whose contents are then not stated. */
    method LoadPage(page: nat) returns (k: nat)
      requires Valid() && isOpen && position == page * utsize
      modifies this`bufferStart, this`bufferEnd, this`bufferReloads, this`position, this`loaded, utmpbuf
      ensures Valid()
      ensures k == PageRecords(file, page, nrecs, utsize)
      ensures bufferReloads == old(bufferReloads) + 1
      ensures bufferStart == page && bufferEnd == page + k - 1 && loaded
      ensures position == old(position) + ReadLength(file.size, old(position), nrecs * utsize)
      ensures forall j :: 0 <= j < k ==> utmpbuf[j] == file.records[page + j]
      ensures forall j :: k <= j < nrecs && (k < j || ReadLength(file.size, old(position), nrecs * utsize) % utsize == 0) ==>
                utmpbuf[j] == old(utmpbuf[j])
    {
      var bytes := ReadLength(file.size, position, nrecs * utsize);
      k := PageRecords(file, page, nrecs, utsize);
      forall j | 0 <= j < k {
        utmpbuf[j] := file.records[page + j];
      }
      position := position + bytes;
      bufferReloads := bufferReloads + 1;
      bufferStart := page;
      bufferEnd := page + k - 1;
      loaded := true;
    }

    /** `utmp_stats` (lines 114-119): `a[0]` gets `records_read`, which no
        operation ever increments, and `a[1]` the reload count. */
    method Stats(a: array<int>)
      requires Valid() && a.Length >= 2
      modifies a
      ensures Valid()
      ensures a[0] == recordsRead == 0 && a[1] == bufferReloads
      ensures a[2..] == old(a[2..])
    {
      a[0] := recordsRead;
      a[1] := bufferReloads;
    }
  }
}
