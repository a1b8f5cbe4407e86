/**
 * What the three loaders share: what they find on disk for a URL before
 * they ask the network, the response the network gives, and the effects of
 * one load (the request issued, whether the two cache files were reset,
 * what was written to the header file, and how the load ends).
 *
 * Each load issues at most one request, so the network is one input: the
 * response to that request, or None when the URL is not a valid HTTP URL or
 * the call fails with an I/O error.
 */
module Loading {
  import opened Common
  import opened HttpHeaders
  import opened Md5Hex
  import opened Lru
  import FileCache
  import CacheNaming

  /**
   * The header and data files of a URL: whether each exists, the header
   * file as read back (None when reading it fails), and the data file's
   * length.
   */
  datatype Stored = Stored(headerExists: bool, dataExists: bool, headers: Option<Headers>, dataLen: nat)

  datatype Response = Response(code: int, headers: Headers)

  /** OkHttp `Response.isSuccessful()`. */
  predicate Successful(code: int) {
    200 <= code < 300
  }

  /**
   * How a load ends: the cached data file without reading a body, the data
   * file after reading the response body appended from the given offset,
   * no file, or an exception leaving the loader.
   */
  datatype Ending = Cached | BodyFrom(offset: nat) | NoFile | Raises

  /** The effects of one load. */
  datatype Load = Load(request: Option<Headers>, reset: bool, written: Option<Headers>, ending: Ending)

  /** The request headers of a range resume: `Range: bytes=<len>-` and `If-Range`. */
  function RangeRequest(len: nat, validator: string): Headers {
    [Header("Range", "bytes=" + Decimal(len) + "-"), Header("If-Range", validator)]
  }

  /** `Headers.validator()`: ETag, else Last-Modified. */
  function Validator(h: Headers): Option<string> {
    match Get(h, "ETag")
    case Some(e) => Some(e)
    case None => Get(h, "Last-Modified")
  }

  /** Both files exist, the headers read back, and their Content-Length is the data's length. */
  predicate CompleteCopy(s: Stored) {
    s.headerExists && s.dataExists && s.headers.Some? && ContentLength(s.headers.value) == Some(s.dataLen)
  }

  /** Whether a load hands back the data file: served, or its body read to the end (`bodyOk`). */
  predicate GivesFile(l: Load, bodyOk: bool) {
    l.ending == Cached || (l.ending.BodyFrom? && bodyOk)
  }

  /** `Content-Length` as `toLong()` reads it: None when absent or unparseable. */
  function ContentLength(h: Headers): Option<int> {
    match Get(h, "Content-Length")
    case None => None
    case Some(text) => ParseLong(text)
  }

  /** OkHttp `ResponseBody.contentLength()`: the length, or -1 when unknown. */
  type BodyLength = x: int | x >= -1

  /** The whole file's length a read announces: -1 for an unknown body length, else the body plus initLen. */
  function TotalLen(contentLen: BodyLength, initLen: nat): (t: int)
    ensures t == -1 <==> contentLen == -1
    ensures t != -1 ==> t - initLen == contentLen
  {
    if contentLen == -1 then -1 else contentLen + initLen
  }

  /** The bytes the read loops append: the chunks in order. */
  function Concat(chunks: seq<seq<byte>>): (r: seq<byte>)
  {
    if chunks == [] then [] else Concat(chunks[..|chunks| - 1]) + chunks[|chunks| - 1]
  }

  lemma ConcatSnoc(chunks: seq<seq<byte>>, i: nat)
    requires i < |chunks|
    ensures Concat(chunks[..i + 1]) == Concat(chunks[..i]) + chunks[i]
  {
    assert chunks[..i + 1][..i] == chunks[..i];
  }

  /** One chunk more appended to a file that already holds the earlier ones. */
  lemma AppendChunk(file: seq<byte>, chunks: seq<seq<byte>>, i: nat)
    requires i < |chunks|
    ensures file + Concat(chunks[..i]) + chunks[i] == file + Concat(chunks[..i + 1])
  {
    ConcatSnoc(chunks, i);
    assert file + Concat(chunks[..i]) + chunks[i] == file + (Concat(chunks[..i]) + chunks[i]);
  }

  /** Where a loop that stops at the first empty read stops. */
  function FirstEmpty(chunks: seq<seq<byte>>): (k: nat)
    ensures k <= |chunks|
    ensures forall j :: 0 <= j < k ==> chunks[j] != []
    ensures k < |chunks| ==> chunks[k] == []
  {
    if chunks == [] || chunks[0] == [] then 0 else 1 + FirstEmpty(chunks[1..])
  }

  /** JVM integer division, which truncates toward zero. */
  function TruncDiv(a: int, b: int): (q: int)
    requires b > 0
    ensures a >= 0 ==> q == a / b
  {
    if a >= 0 then a / b else -((-a) / b)
  }

  /** Truncation rounds a negative quotient up, the mirror image of the positive one. */
  lemma TruncDivOdd(a: int, b: int)
    requires b > 0
    ensures TruncDiv(-a, b) == -TruncDiv(a, b)
  {
  }

  /** The observers a `for` loop with a null check calls, in order. */
  function Present<T>(observers: seq<Option<T>>): (r: seq<T>)
    ensures |r| <= |observers|
  {
    if observers == [] then []
    else (if observers[0].Some? then [observers[0].value] else []) + Present(observers[1..])
  }

  /** Every non-null observer is called, and only those. */
  lemma {:induction false} PresentMembers<T>(observers: seq<Option<T>>, o: T)
    ensures o in Present(observers) <==> Some(o) in observers
  {
    if observers != [] {
      PresentMembers(observers[1..], o);
      assert observers == [observers[0]] + observers[1..];
    }
  }

  lemma {:induction false} PresentSnoc<T>(observers: seq<Option<T>>, i: nat)
    requires i < |observers|
    ensures Present(observers[..i + 1]) == Present(observers[..i]) + (if observers[i].Some? then [observers[i].value] else [])
  {
    if i > 0 {
      var t := observers[1..];
      PresentSnoc(t, i - 1);
      assert observers[..i + 1][1..] == t[..i];
      assert observers[..i][1..] == t[..i - 1];
    } else {
      assert observers[..1] == [observers[0]];
      assert observers[..1][1..] == [];
    }
  }

  /** The same, for every observer at once. */
  lemma PresentMembersAll<T>(observers: seq<Option<T>>)
    ensures forall o :: o in Present(observers) <==> Some(o) in observers
  {
    forall o {
      PresentMembers(observers, o);
    }
  }

  /**
   * `clearCache(url)` of the Kotlin and the urlloader Java loaders: false
   * without touching the cache while the url's task runs, otherwise the
   * cache's own `clearCache` for the url's MD5 name.
   */
  method ClearCacheUnlessRunning(cache: FileCache.DiskCache, running: bool, hex: string, headerExisted: bool)
    returns (cleared: bool)
    requires cache.Valid() && cache.config.pairing.Some?
    modifies cache
    ensures cache.Valid()
    ensures running ==> !cleared && cache.Abs() == old(cache.Abs())
    ensures !running ==> cleared == (Has(old(cache.entries), CacheNaming.DataName(cache.config.pairing.value, hex)) ||
                                     (cache.config.variant == FileCache.FileLru && headerExisted))
    ensures !running ==> cache.Abs() == FileCache.Removed(cache.config, FileCache.Cleared(cache.config, old(cache.Abs()), hex),
                                                          CacheNaming.DataName(cache.config.pairing.value, hex))
  {
    if running {
      cleared := false;
    } else {
      cleared := cache.ClearCache(hex, headerExisted);
    }
  }
}
