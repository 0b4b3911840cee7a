# google-drive-sync, modelled in Dafny

`google-drive-sync.py` keeps local files and Google Drive documents in step.
For each configured `local,remote` pair, `SyncFile.sync` reads the local
modification time and the remote document's `modifiedTime`. It truncates
both to whole seconds with `float(int(x))` and then picks a direction:

- upload when the local time is later;
- download when the remote time is later;
- nothing when the two are equal.

An upload writes the local time back to the remote document as text in
`TIME_FORMAT` (`%Y-%m-%dT%H:%M:%S.%fZ`). That is meant to let the next pass
see the two sides as equal. It does, except when rounding the time to the
microsecond carries it into the next second (see "## Findings").

The model has these modules:

- `Truncation`: `int()` on a time, which truncates toward zero, and the
  two conversions of a local time to whole microseconds: the rounding
  `fromtimestamp` does, and a corrected one that truncates.
- `Calendar`: the proleptic Gregorian calendar of `datetime`, and the
  conversion between dates and day counts from 1970-01-01. Both directions
  are proved inverse.
- `Digits`: decimal digit strings, their values, and zero padding.
- `TimeFormat`: reading `TIME_FORMAT` the way CPython's `strptime` does, and
  writing it the way `strftime` does, in UTC, over whole microseconds.
- `PairSpec`: `str.split(",")` and the two-name unpacking of a pair.
- `Sync`: the world (local files by path, remote documents by id), plus
  `get_modification_time`, `_upload`, `_download` and `sync` over it.
- `Cycle`: one pass of the poll loop over the configured pairs.
- `Wrappers`: `Result` and `Option`, which stand for the exceptions the
  program raises.

The program needs the network, the clock and the filesystem; the model
turns them into plain values:

- The world is a value: local files are (bytes, modification time) and
  remote documents are (bytes, `modifiedTime` metadata).
- The time at which a download's write happens is a parameter, `now`.
- Times are Dafny `real`s (seconds) or `int`s (microseconds), not binary
  floats.
- Naive `datetime` values are read in UTC.

The model follows the code, including where the code does less than one
might expect of a sync tool:

- `main` has no `try`/`except` around `sync()` (google-drive-sync.py:164-169).
  A failing pair ends the pass and the process, so later pairs are not
  synced; one bad pair does not leave the others running.
  `Cycle.CycleStopsAtFailure` states this.
- An upload writes the local time as `fromtimestamp` gives it, rounded to
  the nearest microsecond (google-drive-sync.py:67). `Sync.SyncPair` uploads
  that way, so an upload converges only when the rounding keeps the whole
  second (see "## Findings"). The corrected upload, which truncates, is
  `Sync.Upload` with `Truncated`, and is not what `sync` does.
- `strptime` accepts more than the strict `YYYY-MM-DDTHH:MM:SS.ffffffZ`:
  - one or two digits for month, day, hour, minute and second;
  - a space and one digit for the day;
  - one to six fraction digits;
  - lower-case `t` and `z`.

  Second 60 or 61 matches the pattern, but `datetime` then refuses it. The
  model tells a `Mismatch` apart from an `OutOfRange`.
- A missing `modifiedTime` raises `KeyError`, and a non-string one raises
  `ValueError`. The model keeps these as two distinct errors,
  `MissingModifiedTime` and `ModifiedTimeNotText`.

## Model

| member | source | states |
|---|---|---|
| Truncation.Trunc | google-drive-sync.py:104 | `int()` on a time: at or after the epoch it is the whole second at or below the time, before it the whole second at or above, so the fraction is dropped toward zero |
| Truncation.MicrosHalfEven | google-drive-sync.py:67 | the microseconds `fromtimestamp` keeps: within half a microsecond of the time, and even on a tie |
| Truncation.TruncTowardZero | google-drive-sync.py:102-104 | `int()` never moves a time away from zero, and truncating twice is truncating once |
| Truncation.TruncIsFloor | google-drive-sync.py:104 | for times at or after the epoch, truncation is the floor: `Trunc(t) <= t < Trunc(t) + 1` |
| Truncation.TruncMonotonic | google-drive-sync.py:111 | a later time never truncates to an earlier second |
| Truncation.TruncSecondsOf | google-drive-sync.py:43 | truncating a remote instant given in microseconds drops its last six digits, toward zero |
| Truncation.MicrosOfKeepsSecond | google-drive-sync.py:66-69 | the corrected conversion, which truncates a local time to whole microseconds, keeps its whole second for every time |
| Truncation.RoundHalfEven | google-drive-sync.py:67 | `fromtimestamp`'s rounding: within half a unit of the input, and even on a tie |
| Truncation.MicrosHalfEvenSecond | google-drive-sync.py:67 | `fromtimestamp`'s rounding keeps the whole second of a time at or after the epoch exactly when its fraction is below 0.9999995 s, and carries into the next second otherwise |
| Truncation.MicrosHalfEvenCarries | google-drive-sync.py:67 | rounding 1000.9999996 s to the nearest microsecond gives 1001.000000 s, although the time truncates to 1000 |
| Calendar.DaysInMonth | google-drive-sync.py:43 | months have 28 to 31 days, and 29 exactly for February of a leap year |
| Calendar.CivilFromDaysInverse | google-drive-sync.py:67 | every day count is a calendar date that counts back to it |
| Calendar.DaysFromCivilInverse | google-drive-sync.py:43 | every calendar date is recovered from its day count |
| Calendar.EpochIsDayZero | google-drive-sync.py:67 | day 0 is 1970-01-01, in both directions |
| Calendar.DaysFromCivilNext | google-drive-sync.py:43 | the calendar day after a date (next day of the month, first of the next month, or January 1 of the next year) counts exactly one more; with day 0 at 1970-01-01, every date's count is its number of days since the epoch, as `.timestamp()` needs |
| Calendar.CivilFromDaysNext | google-drive-sync.py:67 | the date of day count z + 1 is the calendar day after the date of z |
| Digits.ValueOfPad | google-drive-sync.py:66-69 | a number below 10^w written in w zero-padded digits reads back as that number |
| Digits.PadOfValue | google-drive-sync.py:43 | a digit string is the zero-padded rendering of its value at its own width |
| Digits.ValueOfConcat | google-drive-sync.py:43 | two digit strings read one after the other: the first counts in units of ten to the length of the second |
| TimeFormat.FromMicros | google-drive-sync.py:67 | the UTC date and time of an instant has an hour, minute and second in range, and keeps the instant's microseconds |
| TimeFormat.FromMicrosInverse | google-drive-sync.py:67 | every instant has a valid date and time of day that counts back to it |
| TimeFormat.ToMicrosInverse | google-drive-sync.py:43 | a valid date and time is recovered from its instant |
| TimeFormat.MatchFields | google-drive-sync.py:14 | a successful split of a text into fields gives pieces that fit their fields and spell the text |
| TimeFormat.MatchFieldsOf | google-drive-sync.py:14 | pieces that fit their fields are split off again from the text they spell |
| TimeFormat.MatchTime | google-drive-sync.py:43 | whatever matches `TIME_FORMAT` is the text of well-formed pieces |
| TimeFormat.MatchTimeComplete | google-drive-sync.py:43 | every text of well-formed pieces matches and gives those pieces back |
| TimeFormat.ParseTime | google-drive-sync.py:43 | a text is read exactly when it matches the format and names a valid date and time; it is a mismatch exactly when it does not match |
| TimeFormat.FractionMicros | google-drive-sync.py:43 | a fraction of k digits, padded on the right with zeros to six places, counts its value in units of 10^(6-k) microseconds, so `.123` is 123000 µs |
| TimeFormat.FractionBelowSecond | google-drive-sync.py:43 | the microseconds a fraction of at most six digits denotes are below one second |
| TimeFormat.ParseTimeFields | google-drive-sync.py:43 | the instant read from a text has the text's fields as its UTC date and time, its fraction scaled to six digits |
| TimeFormat.FirstDayWritten | google-drive-sync.py:66-69 | every instant of the first day after the epoch falls on 1970-01-01 and is written |
| TimeFormat.FormatTime | google-drive-sync.py:66-69 | an instant is written exactly when its year is between 1 and 9999 |
| TimeFormat.FormatThenParse | google-drive-sync.py:66-69 | reading back a written instant gives the instant, to the microsecond |
| TimeFormat.ParseThenFormat | google-drive-sync.py:43 | a text read in the layout `strftime` writes is written back identically |
| TimeFormat.RejectsWithoutZone | google-drive-sync.py:14 | a text that does not end in `Z` or `z` is a mismatch |
| TimeFormat.RejectsWithoutFraction | google-drive-sync.py:14 | a text without the `.` before the fraction is a mismatch |
| TimeFormat.ParseSample | google-drive-sync.py:43 | `2024-03-01T10:00:00.<f>Z` is read as 1709287200 s after the epoch plus the microseconds of any fraction f of one to six digits |
| TimeFormat.ParseExample | google-drive-sync.py:43 | `2024-03-01T10:00:00.000000Z` is read as 1709287200 s after the epoch |
| TimeFormat.ParseMillisExample | google-drive-sync.py:43 | the millisecond text `2024-03-01T10:00:00.123Z` is read as 1709287200.123 s after the epoch |
| TimeFormat.RejectionWithoutZoneExample | google-drive-sync.py:43 | the same text without its `Z` is refused |
| TimeFormat.RejectionWithoutFractionExample | google-drive-sync.py:43 | the same text without its fraction is refused |
| PairSpec.Split | google-drive-sync.py:166 | `split(",")` gives one more piece than there are commas, none containing a comma |
| PairSpec.JoinSplit | google-drive-sync.py:166 | joining the pieces of a split with the separator gives the text back |
| PairSpec.SplitJoin | google-drive-sync.py:166 | splitting a join of separator-free pieces gives the pieces back |
| PairSpec.SplitPair | google-drive-sync.py:166 | a pair spec unpacks exactly when it has one comma, into the text before and after it; no comma is too few values, two or more is too many |
| PairSpec.SplitPairOfJoin | google-drive-sync.py:166 | two comma-free names joined by a comma unpack to those names |
| Sync.LocalModificationTime | google-drive-sync.py:86-87 | the local time is read exactly when the file exists, and it is the file's modification time |
| Sync.RemoteModificationTime | google-drive-sync.py:29-43 | a missing document, a missing `modifiedTime` and a non-string `modifiedTime` each fail with their own error; a text that parses gives its instant in seconds, and one that does not fails with the parser's reason |
| Sync.UploadedModifiedTime | google-drive-sync.py:66-69 | a local time is written exactly when its converted instant lies in years 1 to 9999, and the text written reads back as that instant |
| Sync.Decide | google-drive-sync.py:118-127 | upload exactly when local is later, download exactly when remote is later, nothing exactly when they are equal |
| Sync.Upload | google-drive-sync.py:58-73 | a missing local file fails first, then an unwritable time, then a missing document with RemoteNotFound; an upload gives the remote document the local bytes and the text written for the local time, which reads back as that time converted; the local side and every other document stay as they were |
| Sync.Download | google-drive-sync.py:95-99 | a download fails exactly when the document is missing; it gives the local file exactly the remote bytes and the write time, adds no other path, and leaves the remote side and every other file as they were |
| Sync.SyncPair | google-drive-sync.py:101-127 | the local time is read first, then the remote one, and a failure of either is the result; with both read, a tie changes nothing, a later remote time always downloads, and a later local time uploads, completing exactly when `_upload` does |
| Sync.UploadConverges | google-drive-sync.py:101-127 | after an upload whose rounding keeps the local whole second, the next `sync` of the pair does nothing |
| Sync.CorrectedUploadConverges | google-drive-sync.py:66-69 | after the corrected upload, which truncates, the next `sync` of the pair does nothing, whatever the local time |
| Sync.UploadsLaterSecond | google-drive-sync.py:101-127 | a local time in a later whole second than the remote one, rounding to an instant in years 1 to 9999, is uploaded, the local side is unchanged, and the remote then reads back as that instant |
| Sync.UploadThenDownloads | google-drive-sync.py:66-69 | as written, a local 1000.9999996 s against a remote 999 s uploads, and the next `sync` then downloads |
| Sync.DownloadConverges | google-drive-sync.py:95-121 | after a download the two sides hold the same bytes; if the write time is no earlier than the remote time, the local time truncates no earlier than the remote one and the next `sync` never downloads |
| Sync.NoOpStable | google-drive-sync.py:118-127 | a pair with equal truncated times is left alone by every later `sync` |
| Sync.SyncPairFrame | google-drive-sync.py:92-99 | a `sync` of one pair adds no document and no path but its own, and leaves every other file and document as it was |
| Sync.SameSecondExample | google-drive-sync.py:104-127 | a local 1000.9 s against a remote 1000.2 s does nothing |
| Sync.UploadExample | google-drive-sync.py:104-127 | a local 1001.0 s against a remote 1000.0 s uploads, and the remote then reads back 1001.0 s |
| Cycle.RunCycle | google-drive-sync.py:164-169 | an empty pass changes nothing; a failed pass failed on one of the configured pairs; a completed pass had exactly one comma in every pair |
| Cycle.OnePair | google-drive-sync.py:165-169 | a pass over one pair completes exactly when the pair splits and `sync` of its two names completes, leaving the world `sync` leaves; otherwise it fails with the split's or the sync's error |
| Cycle.CycleStopsAtFailure | google-drive-sync.py:164-169 | once a pair fails, the pairs after it make no difference to the pass |
| Cycle.CycleComposes | google-drive-sync.py:165-169 | a pass over pairs that all succeed carries its world on to the pairs after them |

## Left out

- The Google API client, credentials and service construction
  (google-drive-sync.py:9-12, 21-27, 30-33, 61-63): these are foreign
  library calls. The remote store is a map from document id to content and
  metadata.
- The chunked download loop over `next_chunk` (google-drive-sync.py:48-56):
  a download yields the document's whole content at once.
- Network and authentication failures: the world has no transport, so no
  such error is modelled.
- `os.path.getmtime`, `open` and `write` (google-drive-sync.py:87, 98-99):
  local files are values in the world. A download's write time is the
  parameter `now`.
- Binary floating point: times are exact reals. Converting the truncated
  int back to a float is exact for every realistic time, so it is not
  modelled.
- The local time zone of naive `strptime(...).timestamp()` and
  `fromtimestamp` (google-drive-sync.py:43, 67): the model reads and writes
  in UTC. The code reads and writes local wall-clock time, yet the text
  carries a literal `Z`. In a zone other than UTC, a `modifiedTime` that
  Drive set itself, after an edit on the remote side, is read off by the
  zone's offset, and the direction of a sync can flip. The model does not
  show this. Writing and then reading back needs only a fixed offset, not
  UTC in particular; daylight-saving changes are not modelled either.
- What Drive does to a written `modifiedTime`: the remote store keeps the
  text it is given. Drive may keep only milliseconds. If it drops the
  digits past the millisecond, the whole second does not change; that
  Drive truncates rather than rounds is an assumption of this model.
- Unicode decimal digits, which `\d` in CPython's patterns also matches:
  the model reads only ASCII digits.
- The poll loop, `time.sleep`, `argparse` and logging
  (google-drive-sync.py:130-173): `Cycle` models one pass over the pairs.
- A local file that changes between the two `getmtime` calls of an upload
  (google-drive-sync.py:67, 104): the model reads one modification time.
- TimeFormat.FormatTime: years below 1000 are written with four digits; a
  platform `strftime` may write them unpadded.
- Sync.DownloadConverges: does not promise that the next `sync` does nothing.
  The write time `now` can fall in a later second than the remote time, and
  then the next `sync` uploads. It also assumes that the write time is no
  earlier than the remote modification time. That is an assumption about the
  two clocks, which the code does not check.
- Truncation.MicrosOfKeepsSecond: states the corrected, truncating
  conversion, not the rounding the code does at google-drive-sync.py:67.
  `Truncation.MicrosHalfEvenSecond` states what the rounding does.
- Sync.UploadConverges: holds only when the rounding keeps the local whole
  second, because the code as written does not converge otherwise.
- Cycle.RunCycle: every download of one pass is written at the same time
  `now`. The code's writes happen at increasing clock times, which only a
  sequence of write times would capture.

## Findings

| source | as written | input that shows it | evidently intended | confidence | as-written member | corrected member |
|---|---|---|---|---|---|---|
| google-drive-sync.py:67 | `fromtimestamp` rounds the local time to the nearest microsecond, so a time just below a whole second is written as the next second | local modification time 1000.9999996 s is written as `…00:16:41.000000Z`; the local side truncates to 1000 and the remote to 1001, so the next `sync` downloads instead of doing nothing | the written time keeps the local whole second, so an upload is followed by no transfer | medium, not executed | Sync.UploadThenDownloads | Sync.CorrectedUploadConverges |

`Sync.SyncPair` uploads as the code does, with the rounding. At the level
of the conversion, `Truncation.MicrosHalfEvenCarries` shows the carry and
`Truncation.MicrosHalfEvenSecond` says exactly which times carry. The
corrected upload, `Sync.Upload` with `Truncated`, drops the digits past the
microsecond instead; `Truncation.MicrosOfKeepsSecond` and
`Sync.CorrectedUploadConverges` are proved about it.
