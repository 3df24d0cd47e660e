# bufferlib: a paged random-access reader for utmp files, in Dafny

The `ulast` tool reads login-accounting files: flat files of fixed-size
`struct utmp` records. Its `bufferlib.c` makes such a file indexable. It
keeps one resident page of `NRECS` records (`utmpbuf`) and the index range
`[buffer_start, buffer_end]` that page covers. A request inside the range is
served from memory. Any other request seeks to the page holding the index,
reads up to `NRECS` records and counts a reload.

This project models that reader:

- `carith.dfy` (module `CArith`) spells out the C integer semantics the
  reader relies on, on unbounded integers: truncating `/`, the conversion of
  a `ssize_t` to `size_t`, and storing a value into a 32-bit `int`.
- `bufferlib.dfy` (module `BufferLib`) models the file and the reader.
  - The file is a `UtmpFile`: a byte length plus the sequence of whole
    records it holds.
  - The module-level statics become the class `RecordStore`. `NRECS`
    (2 in the source) and `sizeof(struct utmp)` (384 with the GNU C library)
    are parameters of its constructor, each at least 1.
  - The resident page is an `array<Record>` of length `NRECS`.
  - Every outcome of the operating system is an input: `open(2)` finding
    the file or not, each `lseek(2)` and `read(2)` succeeding or failing,
    and `close(2)`'s result. A closed descriptor makes every seek and read
    fail (`EBADF`), and so does a negative offset (`EINVAL`).
  - `utmp_getrec` returns the slot of `utmpbuf` its pointer addresses, or
    `None` for `NULL`. Its contract states every branch. It also states what
    a caller can rely on: a returned slot holds file record `index`; every
    record of the file is delivered when the I/O succeeds; and no index
    outside the file is delivered, except the sentinel -1.
- `scenarios.dfy` (module `StoreScenarios`) runs short call sequences against
  the class and states their outcome. One of them is the backward scan the library is
  designed to serve, listing logins newest first: `utmp_len`, then
  `utmp_getrec` from the last index down to 0. `ulast.c` itself does not call
  the library; its `main` walks the file backwards with its own
  `lseek`/`read` loop, which visits whole records in the same order.

Where the design of the system and the code disagree, the model follows the
code:

- `records_read` is set to 0 by `utmp_open` and never incremented, so
  `utmp_stats` always reports 0 in `a[0]`. The design says it should count
  every record returned. `Valid()` keeps `recordsRead == 0`.
- A negative index is not always refused. Right after `utmp_open` the range
  is `[-1, -1]`, so index -1 is a hit on slot 0 (`SentinelHitAfterOpen`).
  Before any open, the zero-initialised statics make index 0 a hit on a
  zero-filled slot. With C's truncating division, an index in
  `(-NRECS, 0)` reloads page 0 and then returns `NULL`.
- A file whose length is not a multiple of the record size is not reported.
  Its partial record is simply dropped (`RecordCountDropsPartial`).
- `utmp_len` only reports a failed seek to end-of-file. It then divides
  `file_size_bytes = -1` after converting it to `size_t`. When the rewind
  succeeds, it returns that quotient truncated to `int`: -1431655766 for
  384-byte records (`RecordCountAfterFailedEndSeek`).
- The reload range starts at the page floor, as the seek of line 91 does,
  not at the value line 102 computes (see Findings).

## Model

| member | source | states |
|---|---|---|
| CArith.CDiv | bufferlib.c:91 | C's `index/NRECS` truncates toward zero: for a non-negative dividend the quotient's multiple lies within one divisor below it, for a negative one within one divisor above it |
| CArith.ToInt32 | bufferlib.c:79 | storing into an `int` yields a value in the 32-bit range that is congruent to the stored one modulo 2^32, and leaves in-range values alone |
| CArith.ToSize | bufferlib.c:79 | `ssize_t` to `size_t` yields a value below 2^64 congruent modulo 2^64, and leaves in-range values alone |
| BufferLib.PageStart | bufferlib.c:91 | the seek target `(index/NRECS)*NRECS` is a multiple of NRECS; for index >= 0 it is at most index and within one page of it, for a negative index it is at least index, at most 0 and within one page |
| BufferLib.ReadLength | bufferlib.c:96 | a read delivers at most the requested bytes, never reads past end-of-file, and falls short of the request only at end-of-file |
| BufferLib.PageRecords | bufferlib.c:96-103 | the whole records a page read delivers (`bytes_read/UTSIZE`) are a full page while the file lasts, then what is left of the file, then none |
| BufferLib.PageReadLength | bufferlib.c:96-103 | the byte count of a page read, divided by the record size, equals that page record count for every file whose records are its whole-record prefix |
| BufferLib.PageHolds | bufferlib.c:102-110 | after a reload for `index` the range check of line 106 passes exactly when `index` is a record of the file |
| BufferLib.RecordCount | bufferlib.c:79 | the value `num_recs` gets lies in the `int` range and, for a byte length that fits an `int`, is the number of whole records in it: its multiple of UTSIZE lies within one record below the length |
| BufferLib.RecordCountDropsPartial | bufferlib.c:79 | a file of n whole records plus fewer than UTSIZE stray bytes counts n records |
| BufferLib.RecordCountOfFile | bufferlib.c:69-81 | the count `utmp_len` computes from the byte length is the file's number of records |
| BufferLib.RecordCountAfterFailedEndSeek | bufferlib.c:69-79 | after a failed seek to end-of-file the count computed from -1 is -1431655766 for 384-byte records, not an error value |
| CArith.ToInt32Congruent | bufferlib.c:102-103 | a `size_t` result stored into an `int` is stored as the same value as any number congruent to it modulo 2^32 |
| BufferLib.LiteralBufferStart | bufferlib.c:102 | the start line 102 stores lies in the `int` range, and is the page number times UTSIZE whenever that product fits the `int` |
| BufferLib.LiteralBufferEnd | bufferlib.c:103 | the end line 103 stores lies in the `int` range, and is start + k - 1 whenever that fits the `int`, including start - 1 after an empty read |
| BufferLib.LiteralRangeHolds | bufferlib.c:106 | with the literal start and end, an empty read refuses every index unless the start wrapped around to INT_MIN |
| BufferLib.LiteralStartDiffers | bufferlib.c:91-102 | from the second page on, the start line 102 computes differs from the page floor of line 91 whenever UTSIZE differs from NRECS and the page's byte offset fits the `int` |
| BufferLib.LiteralStartRejects | bufferlib.c:102-110 | when UTSIZE is at least 2*NRECS, the literal start makes line 106 refuse every index outside the first page whose byte offset fits the `int`, whatever the read delivered |
| BufferLib.SourceLiteralRejects | bufferlib.c:102-106 | with NRECS = 2 and 384-byte records, every index from 2 to 11184811 gets NULL with the literal start |
| BufferLib.LiteralStartWraps | bufferlib.c:91-107 | with NRECS = 2 and 384-byte records, index 2^25 in a file of at most 2^25 records reads nothing, gets start INT_MIN and end INT_MAX, passes the check of line 106 and addresses a slot outside the page |
| BufferLib.LiteralStartMisplaces | bufferlib.c:102-107 | with NRECS = 4 and 5-byte records, index 7 passes the literal range check as a slot that holds record 6 |
| BufferLib.RecordStore.Resident | bufferlib.c:87-88 | when the test of line 87 passes on a valid store, the slot line 88 addresses lies inside `utmpbuf` |
| BufferLib.RecordStore.SeekSucceeds | bufferlib.c:91-93 | the seek of line 91 succeeds exactly when the descriptor is open, the system grants it, and the index is above -NRECS, where truncating division makes the offset 0 or more |
| BufferLib.RecordStore.constructor | bufferlib.c:24-32 | the statics before any call: closed descriptor, range [0, 0], all counters 0 |
| BufferLib.RecordStore.Open | bufferlib.c:41-47 | whether or not the open succeeds, the range becomes [-1, -1] and num_recs, buffer_reloads and records_read become 0; the descriptor is open exactly when the file was found |
| BufferLib.RecordStore.Close | bufferlib.c:54-62 | the descriptor ends closed; the result is close(2)'s when it was open, else 0 with nothing changed |
| BufferLib.RecordStore.Len | bufferlib.c:68-82 | file_size_bytes is the length or -1; with a successful rewind num_recs and the result are the record count and the position is 0; a failed rewind returns -1 and keeps num_recs |
| BufferLib.RecordStore.GetRec | bufferlib.c:84-111 | a hit returns slot index - start with nothing changed; a failed seek or read returns NULL with range and reload count unchanged; a reload adds one reload, loads the page at the page floor and sets the range to [floor, floor + k - 1]; a returned slot holds file record index, every record is reachable when the I/O succeeds, and no index outside the file but -1 is returned |
| BufferLib.RecordStore.LoadPage | bufferlib.c:95-103 | the read fills the first k slots with file records floor..floor+k-1, leaves later slots alone, advances the position by the bytes read and counts one reload |
| BufferLib.RecordStore.Stats | bufferlib.c:114-119 | a[0] gets records_read, which is always 0, and a[1] the reload count; nothing else of a changes |
| StoreScenarios.SentinelHitAfterOpen | bufferlib.c:87-88 | right after a successful open, index -1 is a hit on slot 0 with no reload |
| StoreScenarios.OneReloadPerPage | bufferlib.c:84-119 | two records of one page are both delivered correctly at the cost of a single reload, and stats then reports [0, 1] |
| StoreScenarios.OpenAndCount | bufferlib.c:41-82 | `utmp_open` then `utmp_len` on a file whose record count fits an `int` return its number of records and leave a valid open store at the sentinel range with no reload |
| StoreScenarios.ScanBackward | bufferlib.c:84-111 | fetching every index from the last record down to the first, with all I/O succeeding, delivers `NewestFirst` of the file's records and costs exactly one reload per page, the record count divided by NRECS rounded up |
| StoreScenarios.NewestFirst | ulast.c:48-67 | the order of a backward walk over the records, last record first: the result has the input's length and holds at position k the record k places from the end |
| StoreScenarios.ScanStep | bufferlib.c:84-111 | one fetch of that scan returns the record below the last one fetched and leaves the page holding it resident, with one reload spent per page touched so far |
| StoreScenarios.CloseTwice | bufferlib.c:54-62 | a second close returns 0 whatever the first returned |
| StoreScenarios.FailedOpenResets | bufferlib.c:41-47 | a failed open after earlier reads leaves the range [-1, -1] and the reload count 0 |

## Left out

- ulast.c and long2date.c are not modelled as code. They hold argument parsing, the backward `lseek`/`read` loop of `main`, and output formatting through `printf`, `localtime`, `strftime` and `ctime`. Of the loop of ulast.c (lines 48-67) only the order in which it visits a file of whole records is stated, by `StoreScenarios.NewestFirst`. That loop steps back from the end of the file one record size at a time, so when the file ends in a partial record it reads misaligned records; this is not modelled.
- The session reconstruction of the system design (the pending-logout table, reboot and shutdown markers, session durations) is not part of this model. No file of the repository modelled here implements it.
- bufferlib.h is not part of this model.
- The byte layout of `struct utmp` is not modelled. A record is an opaque value, and the file is its byte length plus its whole records.
- `perror` diagnostics are not modelled: they only write to standard error.
- Descriptor numbers are not modelled. `Open` returns whether `open(2)` succeeded instead of the descriptor, and opening a second file without closing the first (which leaks a descriptor in C) simply replaces it.
- `read(2)` on a regular file is modelled as delivering everything asked for up to end-of-file; short reads before end-of-file do not occur there.
- BufferLib.RecordStore.GetRec: does not state the contents of slot k after a read that ends inside a record, because the bytes of a torn record have no value in a model without the record layout.
- BufferLib.RecordStore.LoadPage: does not state the contents of slot k after a read that ends inside a record, for the same reason.
- The 32-bit range of `index` and of `buffer_reloads` is not modelled in `RecordStore`: indices and counters are unbounded integers. Its start is the page floor, which is a non-negative multiple of NRECS no larger than the index after a successful seek, so the `size_t` arithmetic of line 103 is modelled as plain subtraction there: for k = 0 it wraps around and stores `buffer_start - 1` back into the `int`, which is then the same value. The literal start and end of lines 102-103 (`LiteralBufferStart`, `LiteralBufferEnd`) carry the conversions to `size_t` and back to `int` in full.
- BufferLib.LiteralStartRejects: states the refusal only for pages whose byte offset fits the `int`; past that the stored start wraps around, and `LiteralStartWraps` shows one index where the check then passes.
- BufferLib.SourceLiteralRejects: states the refusal only up to index 11184811, for the same reason; the other wrapped pages beyond index 2^25 are not enumerated.
- BufferLib.LiteralStartDiffers: stated only for pages whose byte offset fits the `int`, since a wrapped start can coincide with the page floor.
- The pointer `utmp_getrec` returns aliases the resident page and is valid only until the next reload. The model returns the slot number, and callers read `utmpbuf` themselves.
- The `return a;` at line 117 of a `void` function has no effect and is not modelled.
- The unused `buffer_size` (line 32) is not modelled.

## Findings

| source | as written | input that shows it | evidently intended | confidence | as-written member | corrected member |
|---|---|---|---|---|---|---|
| bufferlib.c:102 | `buffer_start = (index/NRECS)* UTSIZE` multiplies the page number by the record size in bytes | NRECS = 2, 384-byte records, index 2 in a file of at least 3 records: the page at record 2 is read, `buffer_start` becomes 384, and line 106 returns NULL | `buffer_start = (index/NRECS)*NRECS`, the page floor the seek of line 91 used | high; not executed | BufferLib.LiteralStartRejects | BufferLib.RecordStore.GetRec |
| bufferlib.c:102-107 | the byte-scaled start of line 102 is a `size_t` product stored into an `int`, and the end of line 103 is a `size_t` sum stored into an `int` | NRECS = 2, 384-byte records, index 33554432 (2^25) in a file of at most 2^25 records: the seek succeeds, `read` returns 0, `buffer_start` becomes INT_MIN and `buffer_end` INT_MAX, line 106 passes and line 107 returns a pointer far outside `utmpbuf` (its `index - buffer_start` also overflows the `int`); every later call is then a hit | the page floor as start, which never exceeds the index, so an empty read leaves the index outside the range and the call returns NULL | high; not executed | BufferLib.LiteralStartWraps | BufferLib.RecordStore.GetRec |
