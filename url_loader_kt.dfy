/**
 * The Kotlin `UrlLoader`: `syncLoad`'s choice between a full download, a
 * range resume, the cached file and a conditional revalidation, the
 * arithmetic and bookkeeping of `readBody`, `checkDownload`, and the result
 * `Worker.doInBackground` leaves for delivery.
 *
 * A load is a function of what is stored for the url and of what the loader
 * meets: the clock, the stored max-age (`CacheControl.parse(...)
 * .maxAgeSeconds()`, -1 when absent), the response to its one request, and
 * whether resetting the files and writing the header file succeed.
 */
module UrlLoaderKt {
  import opened Common
  import opened HttpHeaders
  import opened Md5Hex
  import opened Loading
  import TaskManagerEx

  /** What one load meets besides the stored files. */
  datatype World = World(nowMillis: nat, maxAge: int, answer: Option<Response>, resetOk: bool, writeOk: bool)

  // ------------------------------------------------------------ syncLoad

  /** `readResponse` after a reset: write the response's headers (stamped), then read its body. */
  function ReadResponse(request: Option<Headers>, r: Response, w: World): Load {
    Load(request, true, Some(Stamped(r.headers, w.nowMillis)), if w.writeOk then BodyFrom(0) else NoFile)
  }

  /** `download()`: reset both files, request the url without extra headers, read a 2xx response. */
  function Download(w: World): Load {
    if !w.resetOk then Load(None, true, None, NoFile)
    else match w.answer
      case None => Load(Some([]), true, None, NoFile)
      case Some(r) => if Successful(r.code) then ReadResponse(Some([]), r, w) else Load(Some([]), true, None, NoFile)
  }

  /** `resumeDownload()`: ask for the rest of the body from len on, if the stored headers allow it. */
  function Resume(h: Headers, len: nat, w: World): Load {
    if Get(h, "Accept-Ranges") != Some("bytes") then Download(w)
    else match Validator(h)
      case None => Download(w)
      case Some(v) =>
        var request := Some(RangeRequest(len, v));
        match w.answer
        case None => Load(request, false, None, NoFile)
        case Some(r) =>
          if r.code == 206 then Load(request, false, Some(Stamped(Merge(h, r.headers), w.nowMillis)), BodyFrom(len))
          else if Successful(r.code) then
            if w.resetOk then ReadResponse(request, r, w) else Load(request, true, None, NoFile)
          else Load(request, false, None, NoFile)
  }

  /** The conditional request field: If-None-Match with the ETag, else If-Modified-Since. */
  function Conditional(h: Headers): Option<Header> {
    match Get(h, "ETag")
    case Some(e) => Some(Header("If-None-Match", e))
    case None =>
      match Get(h, "Last-Modified")
      case Some(m) => Some(Header("If-Modified-Since", m))
      case None => None
  }

  /** The revalidation of a complete but stale copy. */
  function Revalidate(h: Headers, w: World): Load {
    match Conditional(h)
    case None => Download(w)
    case Some(f) =>
      var request := Some([f]);
      match w.answer
      case None => Load(request, false, None, NoFile)
      case Some(r) =>
        if r.code == 304 then Load(request, false, Some(Stamped(Merge(h, r.headers), w.nowMillis)), Cached)
        else if Successful(r.code) then
          if w.resetOk then ReadResponse(request, r, w) else Load(request, true, None, NoFile)
        else Load(request, false, None, NoFile)
  }

  /** `syncLoad(url, progress)`, up to the body read. */
  function SyncLoad(s: Stored, w: World): Load {
    if !s.headerExists || !s.dataExists || s.headers.None? then Download(w)
    else
      var h := s.headers.value;
      match ContentLength(h)
      case None => Download(w)
      case Some(cl) =>
        if s.dataLen > cl then Download(w)
        else if s.dataLen < cl then Resume(h, s.dataLen, w)
        else
          match IsFresh(h, w.nowMillis, w.maxAge)
          case None => Load(None, false, None, Raises)
          case Some(upToDate) => if upToDate then Load(None, false, None, Cached) else Revalidate(h, w)
  }

  // ------------------------------------------------------------ routing

  /** A full download never serves the old copy, never raises, and reads only after a reset. */
  lemma DownloadShape(w: World)
    ensures Download(w).reset
    ensures Download(w).request == None || Download(w).request == Some([])
    ensures Download(w).ending == NoFile || Download(w).ending == BodyFrom(0)
    ensures Download(w).ending == BodyFrom(0) <==> w.resetOk && w.answer.Some? && Successful(w.answer.value.code) && w.writeOk
  {
  }

  /**
   * The routes of `syncLoad`: a full download when a file is missing, the
   * headers do not read back, Content-Length is missing or unparseable, or
   * the data is longer; a resume when it is shorter; otherwise the
   * freshness check, then the cached file or a revalidation.
   */
  lemma SyncLoadRoutes(s: Stored, w: World)
    ensures (!s.headerExists || !s.dataExists || s.headers.None? || ContentLength(s.headers.value).None? ||
             s.dataLen > ContentLength(s.headers.value).value) ==> SyncLoad(s, w) == Download(w)
    ensures (s.headerExists && s.dataExists && s.headers.Some? && ContentLength(s.headers.value).Some? &&
             s.dataLen < ContentLength(s.headers.value).value) ==> SyncLoad(s, w) == Resume(s.headers.value, s.dataLen, w)
    ensures CompleteCopy(s) && IsFresh(s.headers.value, w.nowMillis, w.maxAge) == Some(false) ==>
              SyncLoad(s, w) == Revalidate(s.headers.value, w)
  {
  }

  /**
   * The cached file is served without any request exactly when the copy is
   * complete and its headers are fresh.
   */
  lemma ServedWithoutRequest(s: Stored, w: World)
    ensures SyncLoad(s, w) == Load(None, false, None, Cached) <==>
            CompleteCopy(s) && IsFresh(s.headers.value, w.nowMillis, w.maxAge) == Some(true)
  {
    DownloadShape(w);
    if s.headerExists && s.dataExists && s.headers.Some? {
      var h := s.headers.value;
      ResumeShape(h, s.dataLen, w);
      RevalidateShape(h, w);
    }
  }

  /** `syncLoad` throws exactly when a complete copy has a stamp that does not parse. */
  lemma RaisesOnBadStamp(s: Stored, w: World)
    ensures SyncLoad(s, w).ending == Raises <==>
            CompleteCopy(s) && IsFresh(s.headers.value, w.nowMillis, w.maxAge).None?
  {
    DownloadShape(w);
    if s.headerExists && s.dataExists && s.headers.Some? {
      ResumeShape(s.headers.value, s.dataLen, w);
      RevalidateShape(s.headers.value, w);
    }
  }

  lemma ResumeShape(h: Headers, len: nat, w: World)
    ensures Resume(h, len, w).ending != Cached && Resume(h, len, w).ending != Raises
  {
    DownloadShape(w);
  }

  lemma RevalidateShape(h: Headers, w: World)
    ensures Revalidate(h, w).request != None || Revalidate(h, w).ending != Cached
    ensures Revalidate(h, w).ending != Raises
  {
    DownloadShape(w);
  }

  // ------------------------------------------------------------ requests

  /**
   * A resume needs `Accept-Ranges: bytes` and a validator, ETag first; it
   * then asks for `bytes=<len>-` under If-Range, and a 206 appends the body
   * at len to the kept data, writing the merged headers. Otherwise it is a
   * full download.
   */
  lemma ResumeRequest(h: Headers, len: nat, w: World)
    ensures Get(h, "ETag").Some? ==> Validator(h) == Get(h, "ETag")
    ensures Get(h, "Accept-Ranges") != Some("bytes") || Validator(h).None? ==> Resume(h, len, w) == Download(w)
    ensures Get(h, "Accept-Ranges") == Some("bytes") && Validator(h).Some? ==>
              Resume(h, len, w).request == Some(RangeRequest(len, Validator(h).value))
    ensures Get(h, "Accept-Ranges") == Some("bytes") && Validator(h).Some? && w.answer.Some? && w.answer.value.code == 206 ==>
              Resume(h, len, w) == Load(Some(RangeRequest(len, Validator(h).value)), false,
                                        Some(Stamped(Merge(h, w.answer.value.headers), w.nowMillis)), BodyFrom(len))
  {
  }

  /**
   * Revalidation sends If-None-Match when an ETag is stored, otherwise
   * If-Modified-Since when Last-Modified is, otherwise downloads; a 304
   * keeps the data and writes the merged headers, another 2xx resets and
   * reads the response, anything else (or no response) ends with no file.
   */
  lemma RevalidateRequest(h: Headers, w: World)
    ensures Get(h, "ETag").Some? ==> Revalidate(h, w).request == Some([Header("If-None-Match", Get(h, "ETag").value)])
    ensures Get(h, "ETag").None? && Get(h, "Last-Modified").Some? ==>
              Revalidate(h, w).request == Some([Header("If-Modified-Since", Get(h, "Last-Modified").value)])
    ensures Get(h, "ETag").None? && Get(h, "Last-Modified").None? ==> Revalidate(h, w) == Download(w)
    ensures Conditional(h).Some? && w.answer.Some? && w.answer.value.code == 304 ==>
              Revalidate(h, w).ending == Cached && !Revalidate(h, w).reset &&
              Revalidate(h, w).written == Some(Stamped(Merge(h, w.answer.value.headers), w.nowMillis))
    ensures Conditional(h).Some? && (w.answer.None? || (!Successful(w.answer.value.code) && w.answer.value.code != 304)) ==>
              Revalidate(h, w).ending == NoFile && Revalidate(h, w).written.None?
  {
  }

  /**
   * A body is read only from a 2xx response, after the headers are written:
   * either from offset 0 into files just reset, or, after a 206 to a range
   * request for exactly the stored length, appended at that length.
   */
  lemma BodyOnlyFromSuccess(s: Stored, w: World)
    ensures SyncLoad(s, w).ending.BodyFrom? ==>
              w.answer.Some? && Successful(w.answer.value.code) && SyncLoad(s, w).written.Some?
    ensures SyncLoad(s, w).ending.BodyFrom? && SyncLoad(s, w).reset ==> SyncLoad(s, w).ending.offset == 0
    ensures SyncLoad(s, w).ending.BodyFrom? && !SyncLoad(s, w).reset ==>
              w.answer.value.code == 206 && SyncLoad(s, w).ending.offset == s.dataLen &&
              exists v :: SyncLoad(s, w).request == Some(RangeRequest(s.dataLen, v))
  {
    DownloadShape(w);
    if s.headerExists && s.dataExists && s.headers.Some? {
      var h := s.headers.value;
      var l := SyncLoad(s, w);
      if l.ending.BodyFrom? && !l.reset {
        assert ContentLength(h).Some? && s.dataLen < ContentLength(h).value;
        assert l == Resume(h, s.dataLen, w);
        assert l.request == Some(RangeRequest(s.dataLen, Validator(h).value));
      }
    }
  }

  /** A load wrote nothing, or headers stamped with the current epoch seconds. */
  predicate StampsNow(l: Load, nowMillis: nat) {
    l.written.None? || Get(l.written.value, LastChecked) == Some(Decimal(nowMillis / 1000))
  }

  lemma DownloadStamps(w: World)
    ensures StampsNow(Download(w), w.nowMillis)
  {
    if w.answer.Some? {
      StampedStamp(w.answer.value.headers, w.nowMillis);
    }
  }

  lemma ReplyStamps(h: Headers, w: World)
    ensures w.answer.Some? ==> Get(Stamped(w.answer.value.headers, w.nowMillis), LastChecked) == Some(Decimal(w.nowMillis / 1000))
    ensures w.answer.Some? ==> Get(Stamped(Merge(h, w.answer.value.headers), w.nowMillis), LastChecked) == Some(Decimal(w.nowMillis / 1000))
  {
    if w.answer.Some? {
      StampedStamp(w.answer.value.headers, w.nowMillis);
      StampedStamp(Merge(h, w.answer.value.headers), w.nowMillis);
    }
  }

  /** Whatever `syncLoad` writes to the header file carries the current stamp. */
  lemma WrittenIsStamped(s: Stored, w: World)
    ensures StampsNow(SyncLoad(s, w), w.nowMillis)
  {
    DownloadStamps(w);
    if s.headers.Some? {
      var h := s.headers.value;
      ReplyStamps(h, w);
      assert StampsNow(Resume(h, s.dataLen, w), w.nowMillis);
      assert StampsNow(Revalidate(h, w), w.nowMillis);
    }
  }

  /**
   * After a 304 the stored headers read the response's Cache-Control, ETag
   * and Last-Modified where it sent them, and what they read before for
   * every other name except the stamp.
   */
  lemma NotModifiedMerges(h: Headers, w: World, m: string)
    requires Conditional(h).Some? && w.answer.Some? && w.answer.value.code == 304
    requires !SameName(LastChecked, m)
    ensures Get(Revalidate(h, w).written.value, m) ==
            if Among(MergedNames, m) && Get(w.answer.value.headers, m).Some? then Get(w.answer.value.headers, m) else Get(h, m)
  {
    var merged := Merge(h, w.answer.value.headers);
    GetSet(merged, LastChecked, Decimal(w.nowMillis / 1000), m);
    MergeGet(h, w.answer.value.headers, m);
  }

  // ------------------------------------------------------------ checkDownload

  /**
   * `checkDownload(url, checkAge)`: whether the url's files hold a complete
   * copy (and, with checkAge, a fresh one) while no task runs for it. A
   * stamp that does not parse reads as not fresh.
   */
  function CheckDownload(running: bool, s: Stored, checkAge: bool, nowMillis: nat, maxAge: int): bool {
    if running || !s.headerExists || !s.dataExists || s.headers.None? then false
    else
      match ContentLength(s.headers.value)
      case None => false
      case Some(cl) => cl == s.dataLen && (!checkAge || IsFresh(s.headers.value, nowMillis, maxAge) == Some(true))
  }

  /**
   * `checkDownload` with the age check says yes exactly when no task runs
   * and a load would hand back the cached file without any request.
   */
  lemma CheckDownloadAgreesWithLoad(running: bool, s: Stored, w: World)
    ensures CheckDownload(running, s, true, w.nowMillis, w.maxAge) <==>
            !running && SyncLoad(s, w) == Load(None, false, None, Cached)
  {
    ServedWithoutRequest(s, w);
  }

  /** Without the age check, it asks only for a complete copy. */
  lemma CheckDownloadIgnoringAge(running: bool, s: Stored, nowMillis: nat, maxAge: int)
    ensures CheckDownload(running, s, false, nowMillis, maxAge) <==> !running && CompleteCopy(s)
  {
  }

  // ------------------------------------------------------------ readBody

  const MinBufSize: int := 512
  const MaxBufSize: int := 51200

  /** `arrayOf(a, b, c).sortedArray()[1]`. */
  function Median(a: int, b: int, c: int): (m: int)
    ensures m == a || m == b || m == c
    ensures (if a <= m then 1 else 0) + (if b <= m then 1 else 0) + (if c <= m then 1 else 0) >= 2
    ensures (if a >= m then 1 else 0) + (if b >= m then 1 else 0) + (if c >= m then 1 else 0) >= 2
  {
    if a <= b then (if b <= c then b else if a <= c then c else a)
    else (if a <= c then a else if b <= c then c else b)
  }

  /** The read buffer length: `contentLen.toInt() / 20` between the two bounds. */
  function BufferLen(contentLen: BodyLength): (n: int)
    ensures MinBufSize <= n <= MaxBufSize
  {
    Median(MinBufSize, MaxBufSize, TruncDiv(ToInt32(contentLen), 20))
  }

  /** The median of the two bounds and a value is that value clamped to them. */
  lemma BufferLenClamps(contentLen: BodyLength)
    ensures var v := TruncDiv(ToInt32(contentLen), 20);
            BufferLen(contentLen) == if v < MinBufSize then MinBufSize else if v > MaxBufSize then MaxBufSize else v
    ensures contentLen == -1 ==> BufferLen(contentLen) == MinBufSize
    ensures 20 * MinBufSize <= contentLen <= 20 * MaxBufSize ==> BufferLen(contentLen) == contentLen / 20
  {
  }

  /** One `progress(total, current, speed)` call. */
  datatype Report = Report(total: int, current: int, speed: int)

  /** `delta * 1000 / elapsed`: an `Int` product, then a `Long` division. */
  function Speed(delta: int, elapsed: int): int
    requires elapsed > 0
  {
    TruncDiv(ToInt32(delta * 1000), elapsed)
  }

  /** Reports announce the same total and never go below `from` nor backwards. */
  predicate Rising(reports: seq<Report>, from: int, total: int) {
    forall i :: 0 <= i < |reports| ==>
      reports[i].total == total && from <= reports[i].current && (i > 0 ==> reports[i - 1].current <= reports[i].current)
  }

  lemma RisingSnoc(reports: seq<Report>, from: int, total: int, r: Report)
    requires Rising(reports, from, total)
    requires r.total == total && from <= r.current
    requires reports != [] ==> reports[|reports| - 1].current <= r.current
    ensures Rising(reports + [r], from, total)
  {
  }

  /**
   * `readBody(body, initLen)` on the data file's bytes `file`: read chunks
   * until one comes back empty or the stream ends, append each to the file,
   * and with a progress callback report at most every 100 ms and once at
   * the end. `clock(0)` is the start time, `clock(i + 1)` the time after
   * chunk i.
   */
  method ReadBody(file: seq<byte>, stream: seq<seq<byte>>, contentLen: BodyLength, progress: bool, clock: nat -> int)
    returns (data: seq<byte>, reports: seq<Report>)
    ensures data == file + Concat(stream[..FirstEmpty(stream)])
    ensures !progress ==> reports == []
    ensures progress ==> reports != [] && reports[|reports| - 1].current == |data|
    ensures Rising(reports, |file|, TotalLen(contentLen, |file|))
  {
    var total := TotalLen(contentLen, |file|);
    var time := clock(0);
    var current := |file|;
    var delta := 0;
    var t := time;
    var stop := FirstEmpty(stream);
    data := file;
    reports := [];
    var i := 0;
    while i < |stream| && stream[i] != []
      invariant 0 <= i <= stop
      invariant data == file + Concat(stream[..i])
      invariant progress ==> current + delta == |data|
      invariant !progress ==> reports == []
      invariant |file| <= current && 0 <= delta
      invariant Rising(reports, |file|, total)
      invariant reports != [] ==> reports[|reports| - 1].current <= current
    {
      AppendChunk(file, stream, i);
      data := data + stream[i];
      if progress {
        delta := delta + |stream[i]|;
        t := clock(i + 1);
        if t - time > 100 {
          current := current + delta;
          RisingSnoc(reports, |file|, total, Report(total, current, Speed(delta, t - time)));
          reports := reports + [Report(total, current, Speed(delta, t - time))];
          time := t;
          delta := 0;
        }
      }
      i := i + 1;
    }
    assert i == stop;
    if progress {
      var elapsed := if t - time > 1 then t - time else 1;
      RisingSnoc(reports, |file|, total, Report(total, current + delta, Speed(delta, elapsed)));
      reports := reports + [Report(total, current + delta, Speed(delta, elapsed))];
    }
  }

  // ------------------------------------------------------------ Worker

  /** The callbacks `postResult` runs for every non-null observer. */
  datatype Delivery = Completes | Fails

  /** How `doInBackground` ends, and what it leaves in `postResult`. */
  datatype Background = Background(outcome: TaskManagerEx.Outcome, posted: Option<Delivery>)

  /**
   * `Worker.doInBackground()`: nothing when cancelled; otherwise the load,
   * whose exception leaves the task; then onComplete when it gave a file that
   * is or becomes read-only, else onFailed.
   */
  function WorkerRun(canceled: bool, l: Load, bodyOk: bool, canWrite: bool, madeReadOnly: bool): Background {
    if canceled then Background(TaskManagerEx.Finished(false), None)
    else if l.ending == Raises then Background(TaskManagerEx.Threw, None)
    else if GivesFile(l, bodyOk) && (!canWrite || madeReadOnly) then Background(TaskManagerEx.Finished(true), Some(Completes))
    else Background(TaskManagerEx.Finished(true), Some(Fails))
  }

  /**
   * The success callbacks are chosen exactly when the task was not
   * cancelled, the load gave a file and it is read-only; a cancelled task
   * posts nothing, and a load that throws posts nothing either.
   */
  lemma WorkerChoosesResult(canceled: bool, l: Load, bodyOk: bool, canWrite: bool, madeReadOnly: bool)
    ensures WorkerRun(canceled, l, bodyOk, canWrite, madeReadOnly).posted == Some(Completes) <==>
            !canceled && GivesFile(l, bodyOk) && (!canWrite || madeReadOnly)
    ensures WorkerRun(canceled, l, bodyOk, canWrite, madeReadOnly).posted.None? <==> canceled || l.ending == Raises
    ensures WorkerRun(canceled, l, bodyOk, canWrite, madeReadOnly).outcome == TaskManagerEx.Threw <==> !canceled && l.ending == Raises
  {
  }

  /** `Worker.onCanceled()`: every non-null observer is told. */
  function CanceledCalls<T(!new)>(observers: seq<Option<T>>): (called: seq<T>)
    ensures forall o :: o in called <==> Some(o) in observers
  {
    PresentMembersAll(observers);
    Present(observers)
  }
}
