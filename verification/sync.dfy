/**
 The per-pair reconciler (`SyncFile`, google-drive-sync.py:76-127) and the
 part of the remote store adapter it relies on (`GoogleDrive`,
 google-drive-sync.py:29-73), over an abstract world holding the local
 files by path and the remote documents by id.

 `sync` reads the local modification time, then the remote one, truncates
 both to whole seconds, and uploads when the local one is later, downloads
 when it is earlier, and does nothing when they are equal.
 */
module Sync {
  import opened Wrappers
  import opened Truncation
  import opened TimeFormat

  newtype byte = b: int | 0 <= b < 256

  /** The `modifiedTime` member of a remote document's metadata. */
  datatype Metadata = Absent | Text(text: string) | NotText

  datatype LocalFile = LocalFile(content: seq<byte>, mtime: real)
  datatype RemoteFile = RemoteFile(content: seq<byte>, modifiedTime: Metadata)

  /** The local filesystem by path and the remote store by document id. */
  datatype World = World(local: map<string, LocalFile>, remote: map<string, RemoteFile>)

  datatype Outcome = Uploaded | Downloaded | NoOp

  datatype SyncError =
    | LocalNotFound                             // no file at the local path
    | RemoteNotFound                            // no document with the remote id
    | MissingModifiedTime                       // the metadata has no `modifiedTime`
    | ModifiedTimeNotText                       // `modifiedTime` is not a string
    | MalformedModifiedTime(reason: ParseError) // `strptime` refuses the text
    | TimestampOutOfRange                       // `fromtimestamp` refuses the local time

  /** `os.path.getmtime(path)`. */
  function LocalModificationTime(w: World, path: string): (r: Result<real, SyncError>)
    ensures r.Success? <==> path in w.local
    ensures r.Success? ==> r.value == w.local[path].mtime
    ensures r.Failure? ==> r.error == LocalNotFound
  {
    if path in w.local then Success(w.local[path].mtime) else Failure(LocalNotFound)
  }

  /** `GoogleDrive.get_modification_time(id)`: the document's `modifiedTime`,
      which must be a string in `TIME_FORMAT`, as seconds since the epoch. */
  function RemoteModificationTime(w: World, id: string): (r: Result<real, SyncError>)
    ensures id !in w.remote ==> r == Failure(RemoteNotFound)
    ensures id in w.remote && w.remote[id].modifiedTime.Absent? ==> r == Failure(MissingModifiedTime)
    ensures id in w.remote && w.remote[id].modifiedTime.NotText? ==> r == Failure(ModifiedTimeNotText)
    ensures id in w.remote && w.remote[id].modifiedTime.Text? ==>
              var s := w.remote[id].modifiedTime.text;
              && (ParseTime(s).Success? ==> r == Success(SecondsOf(ParseTime(s).value)))
              && (ParseTime(s).Failure? ==> r == Failure(MalformedModifiedTime(ParseTime(s).error)))
    ensures r.Success? ==> id in w.remote && w.remote[id].modifiedTime.Text?
  {
    if id !in w.remote then Failure(RemoteNotFound)
    else match w.remote[id].modifiedTime
      case Absent => Failure(MissingModifiedTime)
      case NotText => Failure(ModifiedTimeNotText)
      case Text(s) =>
        match ParseTime(s)
        case Failure(e) => Failure(MalformedModifiedTime(e))
        case Success(us) => Success(SecondsOf(us))
  }

  /** How an upload turns the local modification time into whole
      microseconds: `fromtimestamp` rounds to the nearest one, ties to even
      (google-drive-sync.py:67); the corrected upload drops the digits past
      the microsecond, so that the whole second is kept. */
  datatype Conversion = Rounded | Truncated

  function WrittenMicros(c: Conversion, mtime: real): int {
    match c
    case Rounded => MicrosHalfEven(mtime)
    case Truncated => MicrosOf(mtime)
  }

  /** The `modifiedTime` text an upload writes for a local modification
      time; it reads back as that time in whole microseconds. */
  function UploadedModifiedTime(c: Conversion, mtime: real): (r: Result<string, SyncError>)
    ensures r.Success? <==> MinYear <= FromMicros(WrittenMicros(c, mtime)).date.year <= MaxYear
    ensures r.Failure? ==> r.error == TimestampOutOfRange
    ensures r.Success? ==> ParseTime(r.value) == Success(WrittenMicros(c, mtime))
  {
    match FormatTime(WrittenMicros(c, mtime))
    case Failure(_) => Failure(TimestampOutOfRange)
    case Success(s) =>
      FormatThenParse(WrittenMicros(c, mtime));
      Success(s)
  }

  /** The direction chosen for truncated local and remote times. */
  function Decide(local: int, remote: int): (o: Outcome)
    ensures o == Uploaded <==> local > remote
    ensures o == Downloaded <==> local < remote
    ensures o == NoOp <==> local == remote
  {
    if local > remote then Uploaded
    else if local < remote then Downloaded
    else NoOp
  }

  /** `SyncFile._upload`: the remote document takes the local content and,
      as its modification time, the local one converted by c; nothing local
      changes. `sync` uploads with `Rounded`, as the code does. */
  function Upload(c: Conversion, w: World, path: string, id: string): (r: Result<World, SyncError>)
    ensures path !in w.local ==> r == Failure(LocalNotFound)
    ensures path in w.local ==>
              (r.Success? <==> id in w.remote && UploadedModifiedTime(c, w.local[path].mtime).Success?)
    ensures path in w.local && UploadedModifiedTime(c, w.local[path].mtime).Failure?
            ==> r == Failure(TimestampOutOfRange)
    ensures path in w.local && UploadedModifiedTime(c, w.local[path].mtime).Success? && id !in w.remote
            ==> r == Failure(RemoteNotFound)
    ensures r.Success? ==> r.value.local == w.local && id in w.remote
    ensures r.Success? ==> r.value.remote.Keys == w.remote.Keys
    ensures r.Success? ==> r.value.remote[id].content == w.local[path].content
    ensures r.Success? ==> r.value.remote[id].modifiedTime
                           == Text(UploadedModifiedTime(c, w.local[path].mtime).value)
    ensures r.Success? ==> ParseTime(r.value.remote[id].modifiedTime.text)
                           == Success(WrittenMicros(c, w.local[path].mtime))
    ensures r.Success? ==> forall other :: other in w.remote && other != id ==> r.value.remote[other] == w.remote[other]
  {
    if path !in w.local then Failure(LocalNotFound)
    else
      var file := w.local[path];
      match UploadedModifiedTime(c, file.mtime)
      case Failure(e) => Failure(e)
      case Success(text) =>
        if id !in w.remote then Failure(RemoteNotFound)
        else Success(w.(remote := w.remote[id := RemoteFile(file.content, Text(text))]))
  }

  /** `SyncFile._download`: the local file is overwritten with the remote
      content and gets the write time `now` as its modification time;
      nothing remote changes. */
  function Download(w: World, path: string, id: string, now: real): (r: Result<World, SyncError>)
    ensures r.Success? <==> id in w.remote
    ensures r.Failure? ==> r.error == RemoteNotFound
    ensures r.Success? ==> r.value.remote == w.remote
    ensures r.Success? ==> r.value.local.Keys == w.local.Keys + {path}
    ensures r.Success? ==> r.value.local[path] == LocalFile(w.remote[id].content, now)
    ensures r.Success? ==> forall other :: other in w.local && other != path ==> r.value.local[other] == w.local[other]
  {
    if id !in w.remote then Failure(RemoteNotFound)
    else Success(w.(local := w.local[path := LocalFile(w.remote[id].content, now)]))
  }

  /** `SyncFile.sync` for the pair (path, id); `now` is the time at which a
      download's write happens. The times are read local first; with both
      read, the direction is the three-way split of their whole seconds:
      nothing on a tie, a download that always completes, or an upload
      that completes exactly when `_upload` does. */
  function SyncPair(w: World, path: string, id: string, now: real): (r: Result<(Outcome, World), SyncError>)
    ensures path !in w.local ==> r == Failure(LocalNotFound)
    ensures path in w.local && RemoteModificationTime(w, id).Failure?
            ==> r == Failure(RemoteModificationTime(w, id).error)
    ensures r.Success? ==> path in w.local && RemoteModificationTime(w, id).Success?
    ensures path in w.local && RemoteModificationTime(w, id).Success? ==>
              var o := Decide(Trunc(w.local[path].mtime), Trunc(RemoteModificationTime(w, id).value));
              && (o == NoOp ==> r == Success((NoOp, w)))
              && (o == Downloaded ==> r.Success? && r.value.0 == Downloaded)
              && (o == Uploaded ==> (r.Success? <==> Upload(Rounded, w, path, id).Success?))
              && (o == Uploaded && r.Failure? ==> r.error == Upload(Rounded, w, path, id).error)
              && (r.Success? ==> r.value.0 == o)
    ensures r.Success? && r.value.0 == Uploaded ==> Upload(Rounded, w, path, id) == Success(r.value.1)
    ensures r.Success? && r.value.0 == Downloaded ==> Download(w, path, id, now) == Success(r.value.1)
  {
    var localTime :- LocalModificationTime(w, path);
    var remoteTime :- RemoteModificationTime(w, id);
    match Decide(Trunc(localTime), Trunc(remoteTime))
    case Uploaded =>
      var w' :- Upload(Rounded, w, path, id);
      Success((Uploaded, w'))
    case Downloaded =>
      (match Download(w, path, id, now)
       case Failure(e) => Failure(e)
       case Success(w') => Success((Downloaded, w')))
    case NoOp => Success((NoOp, w))
  }

  /** After an upload whose rounding keeps the local whole second (a
      fraction below 0.9999995 s does), the remote modification time has
      the same whole second as the local one, so the next `sync` of the
      pair, at any time, does nothing. */
  lemma {:induction false} UploadConverges(w: World, path: string, id: string, now: real, later: real)
    requires SyncPair(w, path, id, now).Success?
    requires SyncPair(w, path, id, now).value.0 == Uploaded
    requires Trunc(SecondsOf(MicrosHalfEven(w.local[path].mtime))) == Trunc(w.local[path].mtime)
    ensures SyncPair(SyncPair(w, path, id, now).value.1, path, id, later)
            == Success((NoOp, SyncPair(w, path, id, now).value.1))
  {
    var w' := SyncPair(w, path, id, now).value.1;
    var mtime := w.local[path].mtime;
    assert RemoteModificationTime(w', id) == Success(SecondsOf(MicrosHalfEven(mtime)));
  }

  /** After the corrected upload, which drops the digits past the
      microsecond, the remote modification time always has the local whole
      second, so the next `sync` of the pair does nothing. */
  lemma {:induction false} CorrectedUploadConverges(w: World, path: string, id: string, later: real)
    requires Upload(Truncated, w, path, id).Success?
    ensures SyncPair(Upload(Truncated, w, path, id).value, path, id, later)
            == Success((NoOp, Upload(Truncated, w, path, id).value))
  {
    var w' := Upload(Truncated, w, path, id).value;
    var mtime := w.local[path].mtime;
    assert RemoteModificationTime(w', id) == Success(SecondsOf(MicrosOf(mtime)));
    MicrosOfKeepsSecond(mtime);
  }

  /** A `sync` whose local time is in a later whole second than the remote
      one, and rounds to an instant us in the years `strftime` writes,
      uploads, and the remote document then reads back us. */
  lemma UploadsLaterSecond(w: World, path: string, id: string, now: real, us: int)
    requires path in w.local && RemoteModificationTime(w, id).Success?
    requires Trunc(w.local[path].mtime) > Trunc(RemoteModificationTime(w, id).value)
    requires MicrosHalfEven(w.local[path].mtime) == us
    requires MinYear <= FromMicros(us).date.year <= MaxYear
    ensures SyncPair(w, path, id, now).Success?
    ensures SyncPair(w, path, id, now).value.0 == Uploaded
    ensures SyncPair(w, path, id, now).value.1.local == w.local
    ensures RemoteModificationTime(SyncPair(w, path, id, now).value.1, id) == Success(SecondsOf(us))
  {
  }

  /** `UploadsLaterSecond` for an instant of 1970-01-01, which is always in
      range. */
  lemma UploadsOnFirstDay(w: World, path: string, id: string, now: real, us: int)
    requires path in w.local && RemoteModificationTime(w, id).Success?
    requires Trunc(w.local[path].mtime) > Trunc(RemoteModificationTime(w, id).value)
    requires MicrosHalfEven(w.local[path].mtime) == us && 0 <= us < 86400000000
    ensures SyncPair(w, path, id, now).Success?
    ensures SyncPair(w, path, id, now).value.0 == Uploaded
    ensures RemoteModificationTime(SyncPair(w, path, id, now).value.1, id) == Success(SecondsOf(us))
  {
    FirstDayWritten(us);
    UploadsLaterSecond(w, path, id, now, us);
  }

  /** The upload as written does not converge: a local 1000.9999996 s
      against a remote 999.0 s uploads, the rounding writes 1001.000000 s,
      and the next `sync` downloads. */
  lemma UploadThenDownloads(w: World, path: string, id: string, now: real, later: real, text: string)
    requires path in w.local && w.local[path].mtime == 1000.9999996
    requires id in w.remote && w.remote[id].modifiedTime == Text(text)
    requires ParseTime(text) == Success(999000000)
    ensures SyncPair(w, path, id, now).Success?
    ensures SyncPair(w, path, id, now).value.0 == Uploaded
    ensures SyncPair(SyncPair(w, path, id, now).value.1, path, id, later).Success?
    ensures SyncPair(SyncPair(w, path, id, now).value.1, path, id, later).value.0 == Downloaded
  {
    MicrosHalfEvenCarries();
    TruncSecondsOf(999000000);
    assert RemoteModificationTime(w, id) == Success(SecondsOf(999000000));
    UploadsOnFirstDay(w, path, id, now, 1001000000);
    TruncSecondsOf(1001000000);
  }

  /** After a download the two sides hold the same bytes. When the write
      happens no earlier than the remote modification time, the local time
      truncates no earlier than the remote one, and the next `sync` of the
      pair never downloads again. */
  lemma {:induction false} DownloadConverges(w: World, path: string, id: string, now: real, later: real)
    requires SyncPair(w, path, id, now).Success?
    requires SyncPair(w, path, id, now).value.0 == Downloaded
    requires now >= RemoteModificationTime(w, id).value
    ensures SyncPair(w, path, id, now).value.1.local[path].content
            == SyncPair(w, path, id, now).value.1.remote[id].content
    ensures Trunc(SyncPair(w, path, id, now).value.1.local[path].mtime)
            >= Trunc(RemoteModificationTime(w, id).value)
    ensures var next := SyncPair(SyncPair(w, path, id, now).value.1, path, id, later);
            next.Success? ==> next.value.0 != Downloaded
  {
    var w' := SyncPair(w, path, id, now).value.1;
    assert w'.remote == w.remote;
    assert w'.local[path].mtime == now;
    TruncMonotonic(RemoteModificationTime(w, id).value, now);
  }

  /** A pair whose sides are in the same whole second stays that way: every
      later `sync` of it does nothing. */
  lemma NoOpStable(w: World, path: string, id: string, now: real, later: real)
    requires SyncPair(w, path, id, now).Success?
    requires SyncPair(w, path, id, now).value.0 == NoOp
    ensures SyncPair(w, path, id, now).value.1 == w
    ensures SyncPair(w, path, id, later) == Success((NoOp, w))
  {
  }

  /** A `sync` of one pair leaves every other local file and every other
      remote document as it was, adds no document and no file other than
      its own path. */
  lemma {:induction false} SyncPairFrame(w: World, path: string, id: string, now: real)
    requires SyncPair(w, path, id, now).Success?
    ensures SyncPair(w, path, id, now).value.1.local.Keys <= w.local.Keys + {path}
    ensures SyncPair(w, path, id, now).value.1.remote.Keys == w.remote.Keys
    ensures forall p :: p in w.local && p != path ==>
              p in SyncPair(w, path, id, now).value.1.local
              && SyncPair(w, path, id, now).value.1.local[p] == w.local[p]
    ensures forall d :: d in w.remote && d != id ==>
              d in SyncPair(w, path, id, now).value.1.remote
              && SyncPair(w, path, id, now).value.1.remote[d] == w.remote[d]
  {
    var r := SyncPair(w, path, id, now).value;
    match r.0
    case Uploaded =>
    case Downloaded =>
    case NoOp =>
  }

  /** Times in the same whole second give no transfer, whatever their
      fractions: a local 1000.9 s against a remote 1000.2 s does nothing. */
  lemma SameSecondExample(w: World, path: string, id: string, now: real, text: string)
    requires path in w.local && w.local[path].mtime == 1000.9
    requires id in w.remote && w.remote[id].modifiedTime == Text(text)
    requires ParseTime(text) == Success(1000200000)
    ensures SyncPair(w, path, id, now) == Success((NoOp, w))
  {
    TruncSecondsOf(1000200000);
    assert Trunc(1000.9) == 1000;
  }

  /** A local 1001.0 s against a remote 1000.0 s uploads, and the remote
      document then reads back 1001.0 s. */
  lemma UploadExample(w: World, path: string, id: string, now: real, text: string)
    requires path in w.local && w.local[path].mtime == 1001.0
    requires id in w.remote && w.remote[id].modifiedTime == Text(text)
    requires ParseTime(text) == Success(1000000000)
    ensures SyncPair(w, path, id, now).Success?
    ensures SyncPair(w, path, id, now).value.0 == Uploaded
    ensures RemoteModificationTime(SyncPair(w, path, id, now).value.1, id) == Success(1001.0)
  {
    TruncSecondsOf(1000000000);
    assert RemoteModificationTime(w, id) == Success(SecondsOf(1000000000));
    assert Trunc(1001.0) == 1001;
    assert MicrosHalfEven(1001.0) == 1001000000;
    UploadsOnFirstDay(w, path, id, now, 1001000000);
  }
}
