/**
 * The two Java loaders, the library `UrlLoader` and the urlloader
 * `UrlLoader`. Their `mainFunc`, `download`, `resumeDownload`,
 * `readResponse` and `readBody` are the same code, modelled once here; they
 * differ in how a load starts and how its result is delivered.
 *
 * Unlike the Kotlin loader, they write the response headers as received (no
 * stamp) and judge freshness by the header file's modification time plus
 * max-age.
 */
module UrlLoaderJava {
  import opened Common
  import opened HttpHeaders
  import opened Md5Hex
  import opened Loading
  import ObserverTaskManager
  import LibraryTaskManager

  // ------------------------------------------------------------ rawUrl

  /** Where `rawUrl` cuts: the first '?' or '#', or the end. */
  function Cut(url: string): (k: nat)
    ensures k <= |url|
    ensures forall j :: 0 <= j < k ==> url[j] != '?' && url[j] != '#'
    ensures k < |url| ==> url[k] == '?' || url[k] == '#'
  {
    var q := IndexOf(url, '?');
    var f := IndexOf(url, '#');
    if q <= f then q else f
  }

  /** `String.replace(c, "")`. */
  function Strip(s: string, c: char): (r: string)
    ensures forall x :: x in r <==> x in s && x != c
  {
    if s == [] then [] else (if s[0] == c then [] else [s[0]]) + Strip(s[1..], c)
  }

  lemma {:induction false} StripAbsent(s: string, c: char)
    requires c !in s
    ensures Strip(s, c) == s
  {
    if s != [] {
      StripAbsent(s[1..], c);
      assert s == [s[0]] + s[1..];
    }
  }

  /** `rawUrl(url)`: everything before the first '?' or '#', without backslashes. */
  function RawUrl(url: string): string {
    Strip(url[..Cut(url)], '\\')
  }

  /**
   * The raw url keeps exactly the characters of the part before the first
   * '?' or '#' other than '\'; it has no '?', '#' or '\' left, so a second
   * `rawUrl` changes nothing.
   */
  lemma RawUrlClean(url: string)
    ensures forall x :: x in RawUrl(url) <==> x in url[..Cut(url)] && x != '\\'
    ensures '?' !in RawUrl(url) && '#' !in RawUrl(url) && '\\' !in RawUrl(url)
    ensures RawUrl(RawUrl(url)) == RawUrl(url)
  {
    var r := RawUrl(url);
    var p := url[..Cut(url)];
    assert '?' !in p && '#' !in p;
    assert Cut(r) == |r|;
    assert r[..|r|] == r;
    StripAbsent(r, '\\');
  }

  // ------------------------------------------------------------ freshness

  /**
   * The freshness test as written: `now < lastModified() + maxAgeSeconds() * 1000`,
   * where the product of two `int`s wraps around before it is added to the
   * `long` modification time.
   */
  function FreshAsWritten(nowMillis: int, mtime: int, maxAge: int): bool {
    nowMillis < ToInt64(mtime + ToInt32(maxAge * 1000))
  }

  /** The freshness the test means: fewer than maxAge seconds since the header file was written. */
  function FreshByMtime(nowMillis: int, mtime: int, maxAge: int): (current: bool)
    ensures current <==> nowMillis - mtime < maxAge * 1000
  {
    nowMillis < mtime + maxAge * 1000
  }

  /** The two agree for every max-age under about 24.8 days. */
  lemma FreshAgreesBelowOverflow(nowMillis: int, mtime: int, maxAge: int)
    requires -0x8000_0000 <= maxAge * 1000 < 0x8000_0000
    requires InLong(mtime + maxAge * 1000)
    ensures FreshAsWritten(nowMillis, mtime, maxAge) == FreshByMtime(nowMillis, mtime, maxAge)
  {
  }

  /**
   * `Cache-Control: max-age=2592000` (30 days): the product 2592000000 wraps
   * to -1702967296, so a header file written one second ago is already stale.
   */
  lemma MaxAgeOverflow()
    ensures !FreshAsWritten(1_600_000_001_000, 1_600_000_000_000, 2592000)
    ensures FreshByMtime(1_600_000_001_000, 1_600_000_000_000, 2592000)
  {
    assert ToInt32(2592000 * 1000) == -1702967296;
  }

  // ------------------------------------------------------------ header rewrite

  /**
   * The header file after a 304 or 206 as written: when the response has a
   * Cache-Control, the stored headers are written back unchanged, because
   * the builder `newBuilder().set(...)` returns is dropped.
   */
  function RewriteAsWritten(stored: Headers, response: Headers): Option<Headers> {
    match Get(response, "Cache-Control")
    case Some(_) => Some(stored)
    case None => None
  }

  /** The intended rewrite: the stored headers with the response's Cache-Control set. */
  function Rewrite(stored: Headers, response: Headers): Option<Headers> {
    match Get(response, "Cache-Control")
    case Some(cc) => Some(Set(stored, "Cache-Control", cc))
    case None => None
  }

  /**
   * The intended rewrite happens exactly when the response carries a
   * Cache-Control; the new file reads that Cache-Control and every other
   * stored field as before.
   */
  lemma RewriteTakesCacheControl(stored: Headers, response: Headers, m: string)
    ensures Rewrite(stored, response).Some? <==> Get(response, "Cache-Control").Some?
    ensures Rewrite(stored, response).Some? ==>
              Get(Rewrite(stored, response).value, m) ==
              if SameName("Cache-Control", m) then Get(response, "Cache-Control") else Get(stored, m)
  {
    if Get(response, "Cache-Control").Some? {
      GetSet(stored, "Cache-Control", Get(response, "Cache-Control").value, m);
    }
  }

  /**
   * A stored `max-age=0` answered by a 304 with `max-age=600`: as written,
   * the header file still says `max-age=0`, so every later load revalidates
   * again; the intended rewrite stores `max-age=600`.
   */
  lemma RewriteDropsNewCacheControl()
    ensures Get(RewriteAsWritten([Header("Cache-Control", "max-age=0")], [Header("Cache-Control", "max-age=600")]).value,
                "Cache-Control") == Some("max-age=0")
    ensures Get(Rewrite([Header("Cache-Control", "max-age=0")], [Header("Cache-Control", "max-age=600")]).value,
                "Cache-Control") == Some("max-age=600")
  {
    var stored := [Header("Cache-Control", "max-age=0")];
    var response := [Header("Cache-Control", "max-age=600")];
    assert Get(response, "Cache-Control") == Some("max-age=600");
    assert Get(stored, "Cache-Control") == Some("max-age=0");
    RewriteTakesCacheControl(stored, response, "Cache-Control");
  }

  // ------------------------------------------------------------ code versions

  /**
   * Which version of the two flawed steps a load runs: the program as
   * written, or the evidently intended one (long arithmetic for the
   * freshness test, and the Cache-Control of a 304 or 206 kept).
   */
  datatype Version = AsWritten | Corrected

  /** The freshness test of the given version. */
  function Fresh(v: Version, nowMillis: int, mtime: int, maxAge: int): bool {
    match v
    case AsWritten => FreshAsWritten(nowMillis, mtime, maxAge)
    case Corrected => FreshByMtime(nowMillis, mtime, maxAge)
  }

  /** The header file rewrite after a 304 or 206 of the given version. */
  function HeaderRewrite(v: Version, stored: Headers, response: Headers): Option<Headers> {
    match v
    case AsWritten => RewriteAsWritten(stored, response)
    case Corrected => Rewrite(stored, response)
  }

  /**
   * Either version writes the header file exactly when the response has a
   * Cache-Control; as written, what it writes is the stored headers
   * unchanged.
   */
  lemma HeaderRewriteShape(v: Version, stored: Headers, response: Headers)
    ensures HeaderRewrite(v, stored, response).Some? <==> Get(response, "Cache-Control").Some?
    ensures v == AsWritten && HeaderRewrite(v, stored, response).Some? ==> HeaderRewrite(v, stored, response).value == stored
  {
  }

  // ------------------------------------------------------------ mainFunc

  /**
   * What one `mainFunc` meets: the clock, the header file's modification
   * time, the stored max-age, the response to its one request, whether the
   * task is cancelled when `download` has its response, and whether the
   * file reset and the header write succeed.
   */
  datatype World = World(nowMillis: int, mtime: int, maxAge: int, answer: Option<Response>,
                         canceled: bool, resetOk: bool, writeOk: bool)

  /** `readResponse` after a reset: write the response's headers as received, then read its body. */
  function ReadResponse(request: Option<Headers>, r: Response, w: World): Load {
    Load(request, true, Some(r.headers), if w.writeOk then BodyFrom(0) else NoFile)
  }

  /** `download()`: reset, request the url, and read a 2xx response unless the task was cancelled. */
  function Download(w: World): Load {
    if !w.resetOk then Load(None, true, None, NoFile)
    else match w.answer
      case None => Load(Some([]), true, None, NoFile)
      case Some(r) =>
        if w.canceled || !Successful(r.code) then Load(Some([]), true, None, NoFile)
        else ReadResponse(Some([]), r, w)
  }

  /** `resumeDownload(headers)`. */
  function Resume(v: Version, h: Headers, len: nat, w: World): Load {
    if Get(h, "Accept-Ranges") != Some("bytes") then Download(w)
    else match Validator(h)
      case None => Download(w)
      case Some(tag) =>
        var request := Some(RangeRequest(len, tag));
        match w.answer
        case None => Load(request, false, None, NoFile)
        case Some(r) =>
          if r.code == 206 then Load(request, false, HeaderRewrite(v, h, r.headers), BodyFrom(len))
          else if Successful(r.code) then
            if w.resetOk then ReadResponse(request, r, w) else Load(request, true, None, NoFile)
          else Load(request, false, None, NoFile)
  }

  /** The conditional fields: If-Modified-Since when Last-Modified is stored, then If-None-Match when ETag is. */
  function Conditions(h: Headers): Headers {
    (match Get(h, "Last-Modified") case Some(m) => [Header("If-Modified-Since", m)] case None => []) +
    (match Get(h, "ETag") case Some(e) => [Header("If-None-Match", e)] case None => [])
  }

  /** The revalidation of a complete but stale copy. */
  function Revalidate(v: Version, h: Headers, w: World): Load {
    if Get(h, "Last-Modified").None? && Get(h, "ETag").None? then Download(w)
    else
      var request := Some(Conditions(h));
      match w.answer
      case None => Load(request, false, None, NoFile)
      case Some(r) =>
        if r.code == 304 then Load(request, false, HeaderRewrite(v, h, r.headers), Cached)
        else if Successful(r.code) then
          if w.resetOk then ReadResponse(request, r, w) else Load(request, true, None, NoFile)
        else Load(request, false, None, NoFile)
  }

  /** `WorkThread.mainFunc()`, up to the body read; it returns true when the load gives the file. */
  function MainFunc(v: Version, s: Stored, w: World): Load {
    if !s.headerExists || !s.dataExists || s.headers.None? then Download(w)
    else
      var h := s.headers.value;
      match ContentLength(h)
      case None => Download(w)
      case Some(cl) =>
        if s.dataLen != cl then Resume(v, h, s.dataLen, w)
        else if Fresh(v, w.nowMillis, w.mtime, w.maxAge) then Load(None, false, None, Cached)
        else Revalidate(v, h, w)
  }

  lemma DownloadShape(w: World)
    ensures Download(w).reset
    ensures Download(w).written.Some? ==> w.answer.Some? && Download(w).written == Some(w.answer.value.headers)
    ensures Download(w).ending == NoFile || Download(w).ending == BodyFrom(0)
    ensures Download(w).ending == BodyFrom(0) <==>
            w.resetOk && w.answer.Some? && !w.canceled && Successful(w.answer.value.code) && w.writeOk
  {
  }

  lemma ResumeShape(v: Version, h: Headers, len: nat, w: World)
    ensures Resume(v, h, len, w).ending != Cached && Resume(v, h, len, w).ending != Raises
  {
    DownloadShape(w);
  }

  lemma RevalidateShape(v: Version, h: Headers, w: World)
    ensures Revalidate(v, h, w).request != None || Revalidate(v, h, w).ending != Cached
    ensures Revalidate(v, h, w).ending != Raises
  {
    DownloadShape(w);
  }

  /**
   * The routes of `mainFunc`: a full download when a file is missing, the
   * header file cannot be read, or Content-Length is missing or
   * unparseable; a resume whenever the length differs, longer or shorter;
   * then the cached file while fresh by the version's test, else a
   * revalidation.
   */
  lemma MainFuncRoutes(v: Version, s: Stored, w: World)
    ensures (!s.headerExists || !s.dataExists || s.headers.None? || ContentLength(s.headers.value).None?) ==>
              MainFunc(v, s, w) == Download(w)
    ensures (s.headerExists && s.dataExists && s.headers.Some? && ContentLength(s.headers.value).Some? &&
             s.dataLen != ContentLength(s.headers.value).value) ==> MainFunc(v, s, w) == Resume(v, s.headers.value, s.dataLen, w)
    ensures CompleteCopy(s) && !Fresh(v, w.nowMillis, w.mtime, w.maxAge) ==> MainFunc(v, s, w) == Revalidate(v, s.headers.value, w)
    ensures MainFunc(v, s, w).ending != Raises
  {
    DownloadShape(w);
    if s.headers.Some? {
      ResumeShape(v, s.headers.value, s.dataLen, w);
      RevalidateShape(v, s.headers.value, w);
    }
  }

  /** `mainFunc` is true with no request exactly for a complete copy whose header file is fresh. */
  lemma ServedWithoutRequest(v: Version, s: Stored, w: World)
    ensures MainFunc(v, s, w) == Load(None, false, None, Cached) <==>
            CompleteCopy(s) && Fresh(v, w.nowMillis, w.mtime, w.maxAge)
  {
    DownloadShape(w);
    if s.headerExists && s.dataExists && s.headers.Some? {
      ResumeShape(v, s.headers.value, s.dataLen, w);
      RevalidateShape(v, s.headers.value, w);
    }
  }

  /**
   * The program as written revalidates a complete copy whose header file was
   * written one second ago under `max-age=2592000`, which the corrected test
   * serves without a request.
   */
  lemma AsWrittenRevalidatesFreshCopy(h: Headers, w: World)
    requires ContentLength(h) == Some(5)
    requires w.nowMillis == 1_600_000_001_000 && w.mtime == 1_600_000_000_000 && w.maxAge == 2592000
    ensures MainFunc(AsWritten, Stored(true, true, Some(h), 5), w) != Load(None, false, None, Cached)
    ensures MainFunc(Corrected, Stored(true, true, Some(h), 5), w) == Load(None, false, None, Cached)
  {
    MaxAgeOverflow();
    ServedWithoutRequest(AsWritten, Stored(true, true, Some(h), 5), w);
    ServedWithoutRequest(Corrected, Stored(true, true, Some(h), 5), w);
  }

  /**
   * Revalidation sends If-Modified-Since and If-None-Match for whichever
   * validators are stored, both when both are; with neither it downloads.
   * A 304 keeps the data (true) and writes the header file exactly when a
   * Cache-Control came, as written with the stored headers unchanged;
   * another 2xx resets and reads; anything else, or no response, is false.
   */
  lemma RevalidateRequest(v: Version, h: Headers, w: World)
    ensures Get(h, "Last-Modified").Some? && Get(h, "ETag").Some? ==>
              Revalidate(v, h, w).request ==
              Some([Header("If-Modified-Since", Get(h, "Last-Modified").value), Header("If-None-Match", Get(h, "ETag").value)])
    ensures Get(h, "Last-Modified").None? && Get(h, "ETag").None? ==> Revalidate(v, h, w) == Download(w)
    ensures (Get(h, "Last-Modified").Some? || Get(h, "ETag").Some?) && w.answer.Some? && w.answer.value.code == 304 ==>
              Revalidate(v, h, w) == Load(Some(Conditions(h)), false, HeaderRewrite(v, h, w.answer.value.headers), Cached) &&
              (Revalidate(v, h, w).written.Some? <==> Get(w.answer.value.headers, "Cache-Control").Some?) &&
              (v == AsWritten && Revalidate(v, h, w).written.Some? ==> Revalidate(v, h, w).written.value == h)
    ensures (Get(h, "Last-Modified").Some? || Get(h, "ETag").Some?) &&
            (w.answer.None? || (!Successful(w.answer.value.code) && w.answer.value.code != 304)) ==>
              Revalidate(v, h, w).ending == NoFile
  {
    if Get(h, "Last-Modified").Some? && Get(h, "ETag").Some? {
      var a := Header("If-Modified-Since", Get(h, "Last-Modified").value);
      var b := Header("If-None-Match", Get(h, "ETag").value);
      assert Conditions(h) == [a] + [b];
      assert [a] + [b] == [a, b];
      assert Revalidate(v, h, w).request == Some(Conditions(h));
    }
    if w.answer.Some? {
      HeaderRewriteShape(v, h, w.answer.value.headers);
    }
  }

  /**
   * A resume needs `Accept-Ranges: bytes` and a validator, ETag first, and
   * then asks for `bytes=<len>-` under If-Range; a 206 appends the body at
   * len and writes the header file exactly when a Cache-Control came, as
   * written with the stored headers unchanged. Otherwise it is a full
   * download.
   */
  lemma ResumeRequest(v: Version, h: Headers, len: nat, w: World)
    ensures Get(h, "ETag").Some? ==> Validator(h) == Get(h, "ETag")
    ensures Get(h, "Accept-Ranges") != Some("bytes") || Validator(h).None? ==> Resume(v, h, len, w) == Download(w)
    ensures Get(h, "Accept-Ranges") == Some("bytes") && Validator(h).Some? ==>
              Resume(v, h, len, w).request == Some(RangeRequest(len, Validator(h).value))
    ensures Get(h, "Accept-Ranges") == Some("bytes") && Validator(h).Some? && w.answer.Some? && w.answer.value.code == 206 ==>
              Resume(v, h, len, w).ending == BodyFrom(len) &&
              Resume(v, h, len, w).written == HeaderRewrite(v, h, w.answer.value.headers) &&
              (Resume(v, h, len, w).written.Some? <==> Get(w.answer.value.headers, "Cache-Control").Some?) &&
              (v == AsWritten && Resume(v, h, len, w).written.Some? ==> Resume(v, h, len, w).written.value == h)
  {
    if w.answer.Some? {
      HeaderRewriteShape(v, h, w.answer.value.headers);
    }
  }

  /** `download` reads no body once the task is cancelled or the status is not 2xx. */
  lemma DownloadStopsEarly(w: World)
    ensures w.canceled || (w.answer.Some? && !Successful(w.answer.value.code)) ==>
              Download(w).ending == NoFile && Download(w).written.None?
  {
  }

  // ------------------------------------------------------------ checkDownload

  /**
   * `checkDownloadEx(url)` / `checkDownload(url)`: a non-empty url with no
   * running task whose files hold a complete copy with a fresh header file.
   */
  function CheckDownload(v: Version, url: string, running: bool, s: Stored, nowMillis: int, mtime: int, maxAge: int): bool {
    if url == "" || running || !s.headerExists || !s.dataExists || s.headers.None? then false
    else
      match ContentLength(s.headers.value)
      case None => false
      case Some(cl) => cl == s.dataLen && Fresh(v, nowMillis, mtime, maxAge)
  }

  /** It says yes exactly when the url is set, no task runs, and `mainFunc` would answer true offline. */
  lemma CheckDownloadAgreesWithMainFunc(v: Version, url: string, running: bool, s: Stored, w: World)
    ensures CheckDownload(v, url, running, s, w.nowMillis, w.mtime, w.maxAge) <==>
            url != "" && !running && MainFunc(v, s, w) == Load(None, false, None, Cached)
  {
    ServedWithoutRequest(v, s, w);
  }

  /**
   * `deleteCacheFileEx` / `clearCacheEx`: false while the url's task runs;
   * else delete the header file if it exists and, only if that worked, the
   * data file. Returns the result and the files it deleted.
   */
  function DeleteCacheFiles(running: bool, headerExists: bool, headerDeletes: bool, dataExists: bool, dataDeletes: bool)
    : (r: (bool, seq<string>))
    ensures r.0 <==> !running && (!headerExists || headerDeletes) && (!dataExists || dataDeletes)
    ensures "data" in r.1 ==> "header" in r.1 || !headerExists
    ensures running ==> r.1 == []
  {
    if running then (false, [])
    else if headerExists && !headerDeletes then (false, [])
    else
      var first := if headerExists then ["header"] else [];
      if dataExists && !dataDeletes then (false, first)
      else (true, first + (if dataExists then ["data"] else []))
  }

  // ------------------------------------------------------------ readBody

  const MinBufSize: int := 512
  const MaxBufSize: int := 8192

  /** The read buffer: 512 for an unknown length, else a fifth of the body plus one, at most 8192. */
  function BufferLen(contentLen: BodyLength): (n: int)
    ensures 1 <= n <= MaxBufSize
    ensures contentLen == -1 ==> n == MinBufSize
    ensures contentLen >= 0 && n < MaxBufSize ==> contentLen < 5 * n <= contentLen + 5
    ensures contentLen >= 0 && n == MaxBufSize ==> contentLen >= 5 * (MaxBufSize - 1)
  {
    if contentLen == -1 then MinBufSize
    else if contentLen / 5 + 1 < MaxBufSize then contentLen / 5 + 1 else MaxBufSize
  }

  /** The first of the reads 0 .. n-1 at which the task is found cancelled, or n. */
  function CancelPoint(canceled: nat -> bool, from: nat, n: nat): (k: nat)
    requires from <= n
    ensures from <= k <= n
    ensures forall j :: from <= j < k ==> !canceled(j)
    ensures k < n ==> canceled(k)
    decreases n - from
  {
    if from == n || canceled(from) then from else CancelPoint(canceled, from + 1, n)
  }

  /**
   * The `WorkThread` fields `readBody` keeps: `mContentLength`,
   * `mDownloadContentLength`, and the data file it appends to.
   */
  class WorkThread {
    var contentLength: int
    var downloaded: int
    var data: seq<byte>

    constructor (data: seq<byte>)
      ensures this.data == data && contentLength == 0 && downloaded == 0
    {
      this.data := data;
      contentLength := 0;
      downloaded := 0;
    }

    /**
     * `readBody(body, initFileLength)` with the data file holding
     * initFileLength bytes: append each chunk (an empty one included) until
     * the stream ends, giving up with false when the task is found cancelled
     * before a write; `canceled(i)` is `isCanceled()` before chunk i.
     */
    method ReadBody(stream: seq<seq<byte>>, bodyLength: BodyLength, canceled: nat -> bool) returns (ok: bool)
      modifies this
      ensures contentLength == TotalLen(bodyLength, |old(data)|)
      ensures downloaded == |data|
      ensures data == old(data) + Concat(stream[..CancelPoint(canceled, 0, |stream|)])
      ensures ok <==> CancelPoint(canceled, 0, |stream|) == |stream|
    {
      var file := data;
      contentLength := TotalLen(bodyLength, |file|);
      downloaded := |file|;
      var stop := CancelPoint(canceled, 0, |stream|);
      var i := 0;
      while i < |stream|
        invariant 0 <= i <= stop
        invariant data == file + Concat(stream[..i])
        invariant downloaded == |data|
        invariant contentLength == TotalLen(bodyLength, |file|)
      {
        if canceled(i) {
          return false;
        }
        AppendChunk(file, stream, i);
        data := data + stream[i];
        downloaded := downloaded + |stream[i]|;
        i := i + 1;
      }
      ok := true;
    }
  }

  // ------------------------------------------------------------ results

  /** `doInBackground()`: not cancelled, `mainFunc` gave the file, and the file is or becomes read-only. */
  function BackgroundSucceeds(canceled: bool, l: Load, bodyOk: bool, canWrite: bool, madeReadOnly: bool): bool {
    !canceled && GivesFile(l, bodyOk) && (!canWrite || madeReadOnly)
  }

  /** A fresh complete copy succeeds without the network, provided it is read-only or can be made so. */
  lemma FreshCopySucceedsOffline(v: Version, s: Stored, w: World, bodyOk: bool, canWrite: bool, madeReadOnly: bool)
    requires CompleteCopy(s) && Fresh(v, w.nowMillis, w.mtime, w.maxAge)
    ensures MainFunc(v, s, w).request.None?
    ensures BackgroundSucceeds(false, MainFunc(v, s, w), bodyOk, canWrite, madeReadOnly) <==> !canWrite || madeReadOnly
  {
    ServedWithoutRequest(v, s, w);
  }

  /** A library `ProgressObserver`, by identity, with its `mFile`. */
  datatype Watcher = Watcher(observer: int, target: string)

  /** A callback the library's posted result makes. */
  datatype Call = OnCanceled(w: Watcher) | OnFailed(w: Watcher) | OnComplete(w: Watcher, file: string)

  /** What one observer gets from the library's `onComplete` runnable. */
  function Notice(w: Watcher, dataExists: bool, dataCache: string, copied: bool): Call {
    if (!dataExists || w.target != dataCache) && (!dataExists || !copied) then OnFailed(w)
    else OnComplete(w, w.target)
  }

  /** The calls the posted result makes for one observer. */
  function Reply(w: Watcher, canceled: bool, succeeded: bool, dataExists: bool, dataCache: string, copied: Watcher -> bool): Call {
    if canceled then OnCanceled(w)
    else if succeeded then Notice(w, dataExists, dataCache, copied(w))
    else OnFailed(w)
  }

  /** The calls for a set of observers. */
  function Replies(ws: set<Watcher>, canceled: bool, succeeded: bool, dataExists: bool, dataCache: string,
                   copied: Watcher -> bool): set<Call> {
    set w | w in ws :: Reply(w, canceled, succeeded, dataExists, dataCache, copied)
  }

  lemma RepliesStep(observers: set<Watcher>, rest: set<Watcher>, x: Watcher, canceled: bool, succeeded: bool,
                    dataExists: bool, dataCache: string, copied: Watcher -> bool)
    requires x in rest && rest <= observers
    ensures Replies(observers - (rest - {x}), canceled, succeeded, dataExists, dataCache, copied) ==
            Replies(observers - rest, canceled, succeeded, dataExists, dataCache, copied) +
            {Reply(x, canceled, succeeded, dataExists, dataCache, copied)}
  {
    assert observers - (rest - {x}) == (observers - rest) + {x};
  }

  /**
   * The library's result runnables: every observer gets `onCanceled` if the
   * task is cancelled by the time it runs; otherwise, after success, each
   * observer its own notice, and after failure `onFailed`.
   */
  method Deliver(observers: set<Watcher>, canceled: bool, succeeded: bool, dataExists: bool, dataCache: string,
                 copied: Watcher -> bool)
    returns (calls: set<Call>)
    ensures calls == Replies(observers, canceled, succeeded, dataExists, dataCache, copied)
  {
    calls := {};
    var rest := observers;
    assert observers - rest == {};
    while exists w :: w in rest
      invariant rest <= observers
      invariant calls == Replies(observers - rest, canceled, succeeded, dataExists, dataCache, copied)
      decreases |rest|
    {
      var w :| w in rest;
      RepliesStep(observers, rest, w, canceled, succeeded, dataExists, dataCache, copied);
      calls := calls + {Reply(w, canceled, succeeded, dataExists, dataCache, copied)};
      rest := rest - {w};
    }
    assert observers - rest == observers;
  }

  /**
   * After a success, an observer is failed exactly when the data file is
   * gone, or its own target differs and the copy to it fails; the others
   * complete with their own target. A cancelled task fails or completes no
   * one.
   */
  lemma NoticeFailsOnlyOnCopy(w: Watcher, dataExists: bool, dataCache: string, copied: bool)
    ensures Notice(w, dataExists, dataCache, copied) == OnFailed(w) <==>
            !dataExists || (w.target != dataCache && !copied)
    ensures Notice(w, dataExists, dataCache, copied) != OnFailed(w) ==>
            Notice(w, dataExists, dataCache, copied) == OnComplete(w, w.target)
  {
  }

  lemma CanceledRepliesCancel(observers: set<Watcher>, succeeded: bool, dataExists: bool, dataCache: string,
                              copied: Watcher -> bool, w: Watcher)
    requires w in observers
    ensures Reply(w, true, succeeded, dataExists, dataCache, copied) == OnCanceled(w)
    ensures forall v :: v in observers ==> Reply(v, true, succeeded, dataExists, dataCache, copied).OnCanceled?
  {
  }

  /**
   * `loadEx(url, output, observer)`: -1 for an empty url; otherwise start the
   * task with the observer (a default one for null) aimed at output, or at
   * the url's data cache file.
   */
  method LoadEx(m: LibraryTaskManager.TaskManager<Watcher>, url: string, output: Option<string>, dataCache: string,
                observer: Option<int>, fallback: int)
    returns (id: int, started: Option<Watcher>)
    requires m.Valid()
    modifies m
    ensures m.Valid()
    ensures url == "" ==> id == -1 && started.None? && m.Abs() == old(m.Abs())
    ensures url != "" ==>
      started == Some(Watcher(observer.GetOr(fallback), output.GetOr(dataCache))) &&
      id >= 0 && id !in old(m.idTask) && (forall j :: 0 <= j < id ==> j in old(m.idTask)) &&
      m.Abs() == LibraryTaskManager.Joined(old(m.Abs()), url, started.value, id)
  {
    if url == "" {
      return -1, None;
    }
    var w := Watcher(observer.GetOr(fallback), output.GetOr(dataCache));
    id := m.Start(url, Some(w), true);
    started := Some(w);
  }

  /** The default target needs no copy: such an observer completes whenever the data file exists. */
  lemma DefaultTargetCompletes(observer: int, dataCache: string, copied: bool)
    ensures Notice(Watcher(observer, None.GetOr(dataCache)), true, dataCache, copied) ==
            OnComplete(Watcher(observer, dataCache), dataCache)
  {
  }

  /**
   * urlloader `load(url, tag, observer)`: start the task, and call the
   * observer's `onFailed` at once exactly when `start` gives -1 and the
   * observer is not null.
   */
  method StartLoad<T>(m: ObserverTaskManager.TaskManager<T>, url: string, tag: string, observer: Option<T>)
    returns (id: int, failedAtOnce: Option<T>)
    requires m.Valid()
    modifies m
    ensures m.Valid()
    ensures failedAtOnce == (if id == -1 then observer else None)
    ensures url == "" ==> id == -1 && failedAtOnce == observer && m.Abs() == old(m.Abs())
    ensures url != "" ==>
      id >= 0 && failedAtOnce.None? &&
      id !in old(m.idTask) && (forall j :: 0 <= j < id ==> j in old(m.idTask)) &&
      m.Abs() == ObserverTaskManager.Joined(old(m.Abs()), url, tag, observer, id)
  {
    id := m.Start(url, tag, observer, true);
    failedAtOnce := if id == -1 then observer else None;
  }

  /**
   * The urlloader posts and `onCanceled`: the same callback to every
   * non-null observer of the task, in order.
   */
  method Broadcast<T>(observers: seq<Option<T>>) returns (called: seq<T>)
    ensures called == Present(observers)
  {
    called := [];
    var i := 0;
    while i < |observers|
      invariant 0 <= i <= |observers|
      invariant called == Present(observers[..i])
    {
      PresentSnoc(observers, i);
      if observers[i].Some? {
        called := called + [observers[i].value];
      }
      i := i + 1;
    }
    assert observers[..|observers|] == observers;
  }

  /** `onObserverUnregistered(observer)`: only that observer, when not null. */
  function UnregisteredCalls<T>(observer: Option<T>): (called: seq<T>)
    ensures called == Present([observer])
  {
    if observer.Some? then [observer.value] else []
  }
}
