/**
 * The response headers the loaders keep in a URL's header file, as OkHttp's
 * `Headers` holds them: an ordered list of name/value fields, looked up by
 * name without regard to ASCII case, the last field winning. On top of it
 * the Kotlin loader stamps a synthetic `UrlLoader-Last-Checked` field with
 * the epoch seconds of the last check, merges the validators of a 304 or
 * 206 response into the stored fields, and decides freshness from the stamp
 * and the stored max-age.
 */
module HttpHeaders {
  import opened Common

  datatype Header = Header(name: string, value: string)

  type Headers = seq<Header>

  // ------------------------------------------------------------ names

  /** ASCII lower case, as `equalsIgnoreCase` treats the letters of a header name. */
  function Lower(c: char): char {
    if 'A' <= c <= 'Z' then (c as int + 32) as char else c
  }

  function Folded(s: string): (r: string)
    ensures |r| == |s|
  {
    seq(|s|, i requires 0 <= i < |s| => Lower(s[i]))
  }

  /** Two header names that `equalsIgnoreCase` matches. */
  predicate SameName(a: string, b: string) {
    Folded(a) == Folded(b)
  }

  /** `Headers.get(name)`: the value of the last field with that name. */
  function Get(h: Headers, name: string): Option<string> {
    if h == [] then None
    else if SameName(h[|h| - 1].name, name) then Some(h[|h| - 1].value)
    else Get(h[..|h| - 1], name)
  }

  /** `Headers.Builder.removeAll(name)`. */
  function RemoveAll(h: Headers, name: string): Headers {
    if h == [] then []
    else RemoveAll(h[..|h| - 1], name) + (if SameName(h[|h| - 1].name, name) then [] else [h[|h| - 1]])
  }

  /** `Headers.Builder.set(name, value)`: remove every field of that name, then add one. */
  function Set(h: Headers, name: string, value: string): Headers {
    RemoveAll(h, name) + [Header(name, value)]
  }

  /** `get` finds a field exactly when one has the name, and then returns the last one's value. */
  lemma {:induction false} GetIsLast(h: Headers, name: string)
    ensures Get(h, name).Some? <==> exists i :: 0 <= i < |h| && SameName(h[i].name, name)
    ensures Get(h, name).Some? ==>
              exists i :: 0 <= i < |h| && SameName(h[i].name, name) && h[i].value == Get(h, name).value &&
                          forall j :: i < j < |h| ==> !SameName(h[j].name, name)
  {
    if h != [] {
      var init := h[..|h| - 1];
      GetIsLast(init, name);
      forall i | 0 <= i < |init| ensures init[i] == h[i] {
      }
    }
  }

  /** Names that differ only in ASCII case look up the same field. */
  lemma {:induction false} GetFolds(h: Headers, a: string, b: string)
    requires SameName(a, b)
    ensures Get(h, a) == Get(h, b)
  {
    if h != [] {
      GetFolds(h[..|h| - 1], a, b);
    }
  }

  /** Appending a field: it is what a later lookup of its name finds. */
  lemma GetAppend(h: Headers, f: Header, m: string)
    ensures Get(h + [f], m) == if SameName(f.name, m) then Some(f.value) else Get(h, m)
  {
    assert (h + [f])[..|h|] == h;
  }

  lemma {:induction false} GetRemoveAll(h: Headers, n: string, m: string)
    ensures Get(RemoveAll(h, n), m) == if SameName(n, m) then None else Get(h, m)
  {
    if h != [] {
      var init, last := h[..|h| - 1], h[|h| - 1];
      GetRemoveAll(init, n, m);
      assert Get(h, m) == if SameName(last.name, m) then Some(last.value) else Get(init, m);
      if SameName(last.name, n) {
        assert RemoveAll(h, n) == RemoveAll(init, n) + [];
        assert RemoveAll(init, n) + [] == RemoveAll(init, n);
        assert SameName(n, m) <==> SameName(last.name, m);
      } else {
        GetAppend(RemoveAll(init, n), last, m);
      }
    }
  }

  /** After `set(n, v)`, n reads v and every other name reads what it read before. */
  lemma GetSet(h: Headers, n: string, v: string, m: string)
    ensures Get(Set(h, n, v), m) == if SameName(n, m) then Some(v) else Get(h, m)
  {
    GetAppend(RemoveAll(h, n), Header(n, v), m);
    GetRemoveAll(h, n, m);
  }

  // ------------------------------------------------------------ merge

  /** The fields a 304 or 206 response may update. */
  const MergedNames: seq<string> := ["Cache-Control", "ETag", "Last-Modified"]

  /** Whether `equalsIgnoreCase` matches m with one of names. */
  predicate Among(names: seq<string>, m: string) {
    names != [] && (SameName(names[0], m) || Among(names[1..], m))
  }

  /** `from[name]?.let { set(name, it) }`. */
  function CopyField(h: Headers, from: Headers, name: string): Headers {
    match Get(from, name)
    case None => h
    case Some(v) => Set(h, name, v)
  }

  /** The loop of `merge` over the given names, in order. */
  function CopyFields(h: Headers, from: Headers, names: seq<string>): Headers
    decreases |names|
  {
    if names == [] then h else CopyFields(CopyField(h, from, names[0]), from, names[1..])
  }

  /** `Headers.merge(response)`. */
  function Merge(stored: Headers, response: Headers): Headers {
    CopyFields(stored, response, MergedNames)
  }

  lemma {:induction false} CopyFieldsGet(h: Headers, from: Headers, names: seq<string>, m: string)
    ensures Get(CopyFields(h, from, names), m) ==
            if Among(names, m) && Get(from, m).Some? then Get(from, m) else Get(h, m)
    decreases |names|
  {
    if names != [] {
      var n := names[0];
      var h1 := CopyField(h, from, n);
      CopyFieldsGet(h1, from, names[1..], m);
      if SameName(n, m) {
        GetFolds(from, n, m);
      }
      if Get(from, n).Some? {
        GetSet(h, n, Get(from, n).value, m);
      }
    }
  }

  /**
   * `merge` takes Cache-Control, ETag and Last-Modified from the response
   * when the response has them; every other stored field stays as it was.
   */
  lemma MergeGet(stored: Headers, response: Headers, m: string)
    ensures Get(Merge(stored, response), m) ==
            if Among(MergedNames, m) && Get(response, m).Some? then Get(response, m) else Get(stored, m)
  {
    CopyFieldsGet(stored, response, MergedNames, m);
  }

  // ------------------------------------------------------------ numbers

  const LongMin: int := -0x8000_0000_0000_0000
  const LongMax: int := 0x7FFF_FFFF_FFFF_FFFF

  predicate InLong(x: int) {
    LongMin <= x <= LongMax
  }

  /** Two's-complement wrap-around of JVM `long` arithmetic. */
  function ToInt64(x: int): (r: int)
    ensures InLong(r)
    ensures InLong(x) ==> r == x
  {
    (x + 0x8000_0000_0000_0000) % 0x1_0000_0000_0000_0000 - 0x8000_0000_0000_0000
  }

  predicate IsDigit(c: char) {
    '0' <= c <= '9'
  }

  predicate AllDigits(s: string) {
    forall i :: 0 <= i < |s| ==> IsDigit(s[i])
  }

  /** The number an all-digit string spells. */
  function DigitsValue(s: string): nat
    requires AllDigits(s)
  {
    if s == [] then 0 else DigitsValue(s[..|s| - 1]) * 10 + (s[|s| - 1] - '0') as nat
  }

  /**
   * `Long.parseLong(s)` (Kotlin `toLong()`); None for `NumberFormatException`:
   * an optional sign, then one or more digits, within the `long` range.
   */
  function ParseLong(s: string): (r: Option<int>)
    ensures r.Some? ==> InLong(r.value)
  {
    if s == [] then None
    else if s[0] == '-' || s[0] == '+' then
      if |s| == 1 || !AllDigits(s[1..]) then None
      else
        var v: int := if s[0] == '-' then -(DigitsValue(s[1..]) as int) else DigitsValue(s[1..]);
        if InLong(v) then Some(v) else None
    else if AllDigits(s) && InLong(DigitsValue(s)) then Some(DigitsValue(s))
    else None
  }

  /** `Long.toString(n)` for a non-negative n. */
  function Decimal(n: nat): (s: string)
    ensures s != [] && AllDigits(s)
  {
    if n < 10 then [(n + '0' as int) as char] else Decimal(n / 10) + [(n % 10 + '0' as int) as char]
  }

  lemma {:induction false} DecimalValue(n: nat)
    ensures DigitsValue(Decimal(n)) == n
  {
    if n >= 10 {
      DecimalValue(n / 10);
      var s := Decimal(n);
      assert s[..|s| - 1] == Decimal(n / 10);
    }
  }

  /** What `toString` writes, `toLong` reads back. */
  lemma ParseDecimal(n: nat)
    requires n <= LongMax
    ensures ParseLong(Decimal(n)) == Some(n)
  {
    DecimalValue(n);
  }

  // ------------------------------------------------------------ freshness

  const LastChecked: string := "UrlLoader-Last-Checked"

  /** `updateLastChecked()`: the header set with the current epoch seconds stamped. */
  function Stamped(h: Headers, nowMillis: nat): Headers {
    Set(h, LastChecked, Decimal(nowMillis / 1000))
  }

  /** The stamp reads back as the epoch seconds it was written with. */
  lemma StampedStamp(h: Headers, nowMillis: nat)
    ensures Get(Stamped(h, nowMillis), LastChecked) == Some(Decimal(nowMillis / 1000))
  {
    GetSet(h, LastChecked, Decimal(nowMillis / 1000), LastChecked);
  }

  /**
   * `isFresh()`, with the clock and `CacheControl.parse(this).maxAgeSeconds()`
   * passed in. None when the stamp is there but does not parse: the
   * `NumberFormatException` leaves `isFresh`.
   */
  function IsFresh(h: Headers, nowMillis: nat, maxAge: int): Option<bool> {
    StampFresh(Get(h, LastChecked), nowMillis, maxAge)
  }

  /** The freshness decision on the stamp's text. */
  function StampFresh(stamp: Option<string>, nowMillis: nat, maxAge: int): Option<bool> {
    match stamp
    case None => Some(false)
    case Some(s) =>
      match ParseLong(s)
      case None => None
      case Some(t) => Some(nowMillis / 1000 < ToInt64(t + maxAge))
  }

  /**
   * What `writeHeaders` stores is fresh exactly while fewer than maxAge
   * seconds have passed since it was written (in whole epoch seconds).
   */
  lemma StampedFresh(h: Headers, written: nat, nowMillis: nat, maxAge: int)
    requires written <= 0x3FFF_FFFF_FFFF_FFFF && -0x8000_0000 <= maxAge < 0x8000_0000
    ensures Get(Stamped(h, written), LastChecked) == Some(Decimal(written / 1000))
    ensures IsFresh(Stamped(h, written), nowMillis, maxAge) == Some(nowMillis / 1000 < written / 1000 + maxAge)
  {
    var t := written / 1000;
    assert t <= written;
    var d := Decimal(t);
    GetSet(h, LastChecked, d, LastChecked);
    assert Get(Stamped(h, written), LastChecked) == Some(d);
    ParseDecimal(t);
    assert ParseLong(d) == Some(t);
    assert InLong(t + maxAge);
    assert ToInt64(t + maxAge) == t + maxAge;
    FreshFromStamp(Stamped(h, written), d, t, nowMillis, maxAge);
  }

  lemma FreshFromStamp(h: Headers, stamp: string, t: int, nowMillis: nat, maxAge: int)
    requires ParseLong(stamp) == Some(t)
    ensures StampFresh(Some(stamp), nowMillis, maxAge) == Some(nowMillis / 1000 < ToInt64(t + maxAge))
  {
  }

  /** Without a stamp a header set is never fresh. */
  lemma UnstampedStale(h: Headers, nowMillis: nat, maxAge: int)
    requires Get(h, LastChecked).None?
    ensures IsFresh(h, nowMillis, maxAge) == Some(false)
  {
  }
}
