/**
 * The four file-watching disk caches: the urlloader `FileLruCache` (the base
 * of the urlloader `UrlLoaderCache`), the urlloader `DiskLruCache.java`, the
 * urlloader `DiskLruCacheEx` and the library `DiskLruCache` (the base of the
 * library `UrlLoaderCache`). Each keeps an `LruCache` of the accepted files
 * of one directory, fills it from a directory listing at start-up, and then
 * applies file events: a removal kind drops the entry, the other kinds put it
 * back at the youngest end with its current size. Puts trim the table to the
 * maximum, and the cache deletes the files it evicts.
 *
 * The filesystem is not modelled: what the caches ask of it (whether a name
 * is a file, its size, the clock) comes with each event or listing, and what
 * they do to it (setting a modification time, deleting a file) is recorded.
 */
module FileCache {
  import opened Common
  import opened Lru
  import opened Listing
  import CacheNaming

  /** The six `FileObserver` event kinds all four caches watch. */
  datatype Kind = Open | Delete | MovedTo | MovedFrom | CloseWrite | CloseNoWrite

  datatype Variant =
    | FileLru        // urlloader/FileLruCache.kt
    | DiskLruJava    // urlloader/DiskLruCache.java
    | DiskLruEx      // urlloader/DiskLruCache.kt
    | LibraryDiskLru // library/DiskLruCache.java

  /** What an accepted event does: drop the entry, or put it, stamping the file's mtime or not. */
  datatype Action = Drop | Refresh(stamp: bool)

  /** Each cache's event table. */
  function Dispatch(v: Variant, k: Kind): Action {
    match v
    case LibraryDiskLru => if k == Open then Drop else Refresh(k == CloseNoWrite)
    case DiskLruJava => if k == MovedFrom || k == Delete then Drop else Refresh(k == Open || k == CloseNoWrite)
    case _ => if k == MovedFrom || k == Delete then Drop else Refresh(true)
  }

  /**
   * A cache: its variant, its maximum, and the `UrlLoaderCache` pairing when
   * it is one. Only `FileLruCache` and the library `DiskLruCache` have a
   * `UrlLoaderCache` subclass.
   */
  datatype Config = Config(variant: Variant, max: nat, pairing: Option<CacheNaming.Pairing>)

  predicate ConfigOk(c: Config) {
    c.max >= 1 &&
    (c.pairing.Some? ==>
       (c.variant == FileLru || c.variant == LibraryDiskLru) &&
       c.pairing.value.dotted == (c.variant == LibraryDiskLru) &&
       CacheNaming.WellFormed(c.pairing.value))
  }

  /**
   * The cache's own state: the LRU table (eldest first), the modification
   * times it has set with `setLastModified` (the latest per file), and the
   * files it has deleted, in order.
   */
  datatype Disk = Disk(entries: seq<Entry>, stamps: map<string, int>, unlinked: seq<string>)

  /** `accept(dir, name)`: a file of the directory, or a data file of the pairing. */
  predicate Accept(c: Config, name: Option<string>, isFile: bool) {
    match c.pairing
    case None => name.Some? && isFile
    case Some(p) => CacheNaming.Accepts(p, name)
  }

  /** The files `onDelete` deletes for an entry. */
  function OnDelete(c: Config, name: string): seq<string> {
    match c.pairing
    case None => [name]
    case Some(p) => CacheNaming.PairDeletes(p, name)
  }

  /**
   * `entryRemoved` for an eviction: `onDelete`, except in the library cache,
   * which deletes the entry's own file and never calls `onDelete`.
   */
  function EvictionUnlinks(c: Config, name: string): seq<string> {
    if c.variant == LibraryDiskLru then [name] else OnDelete(c, name)
  }

  /** `entryRemoved` for a `remove`: `onDelete`, except in the library cache, which deletes nothing. */
  function RemovalUnlinks(c: Config, name: string): seq<string> {
    if c.variant == LibraryDiskLru then [] else OnDelete(c, name)
  }

  /** The deletions for a run of evicted entries, eldest first. */
  function EvictionsUnlink(c: Config, es: seq<Entry>): seq<string> {
    if es == [] then [] else EvictionsUnlink(c, es[..|es| - 1]) + EvictionUnlinks(c, es[|es| - 1].name)
  }

  // ------------------------------------------------------------ one step

  /** `trimToSize(bound)`. */
  function Trimmed(c: Config, d: Disk, bound: int): Disk {
    d.(entries := Trim(d.entries, bound),
       unlinked := d.unlinked + EvictionsUnlink(c, Evicted(d.entries, bound)))
  }

  /** `put(name, info)`: no deletion for the entry it replaces, then `trimToSize(maxSize)`. */
  function Stored(c: Config, d: Disk, e: Entry): Disk {
    Trimmed(c, d.(entries := Touch(d.entries, e)), c.max)
  }

  /** `remove(name)`. */
  function Removed(c: Config, d: Disk, name: string): Disk {
    if Has(d.entries, name) then
      d.(entries := Without(d.entries, name), unlinked := d.unlinked + RemovalUnlinks(c, name))
    else d
  }

  /** One processed file event; `size` is what `sizeOf(file)` returns at that moment. */
  function Observed(c: Config, d: Disk, k: Kind, path: Option<string>, isFile: bool, size: nat, now: int): Disk {
    if !Accept(c, path, isFile) then d
    else match Dispatch(c.variant, k)
      case Drop => Removed(c, d, path.value)
      case Refresh(stamp) =>
        Stored(c, if stamp then d.(stamps := d.stamps[path.value := now]) else d, Entry(path.value, size))
  }

  /** Putting each item in turn. */
  function PutAll(c: Config, d: Disk, items: seq<Entry>): Disk {
    if items == [] then d else Stored(c, PutAll(c, d, items[..|items| - 1]), items[|items| - 1])
  }

  const Fresh: Disk := Disk([], map[], [])

  // ------------------------------------------------------------ start-up

  function AcceptListed(c: Config): Listed -> bool {
    (l: Listed) => Accept(c, Some(l.name), l.isFile)
  }

  function EntriesOf(s: seq<Listed>): (r: seq<Entry>)
    ensures |r| == |s|
    ensures forall i :: 0 <= i < |s| ==> r[i] == Entry(s[i].name, s[i].size)
  {
    if s == [] then [] else [Entry(s[0].name, s[0].size)] + EntriesOf(s[1..])
  }

  /**
   * The comparator of each start-up sort: the truncated `(int)(a - b)` in
   * the urlloader `DiskLruCache.java`, `Long.compare` in the library one,
   * and `sortedBy { lastModified }` in the Kotlin caches.
   */
  function StartupCompare(v: Variant): (int, int) -> int {
    if v == DiskLruJava then TruncatedCompare else LongCompare
  }

  /** The accepted files of the listing in start-up order. */
  function Sorted(c: Config, listing: seq<Listed>): seq<Listed> {
    SortWith(Accepted(listing, AcceptListed(c)), StartupCompare(c.variant))
  }

  /** `listFiles(this)` sorted by modification time, with each file's size. */
  function Startup(c: Config, listing: seq<Listed>): seq<Entry> {
    EntriesOf(Sorted(c, listing))
  }

  /** `init.remove(name); init[name] = file` on the working `LinkedHashMap`. */
  function MoveToEnd(order: seq<string>, name: string): (r: seq<string>)
    ensures r != [] && r[|r| - 1] == name
  {
    Dropped(order, name) + [name]
  }

  function Dropped(order: seq<string>, name: string): (r: seq<string>)
    ensures |r| <= |order|
  {
    if order == [] then []
    else (if order[0] == name then [] else [order[0]]) + Dropped(order[1..], name)
  }

  /** The working map's order after moving each name to the end in turn. */
  function WorkingOrder(touches: seq<string>): seq<string> {
    if touches == [] then [] else MoveToEnd(WorkingOrder(touches[..|touches| - 1]), touches[|touches| - 1])
  }

  /** An event queued while the listing was being sorted. */
  datatype Queued = Queued(path: Option<string>, isFile: bool)

  /** The paths of the drained events that `accept` lets through, in queue order. */
  function DrainedPaths(c: Config, queued: seq<Queued>): (r: seq<string>)
    ensures |r| <= |queued|
  {
    if queued == [] then []
    else
      var q := queued[|queued| - 1];
      DrainedPaths(c, queued[..|queued| - 1]) + (if Accept(c, q.path, q.isFile) then [q.path.value] else [])
  }

  /** `FileLruCache`'s working map after the listing and the drain. */
  function Drained(c: Config, listing: seq<Listed>, queued: seq<Queued>): seq<string> {
    WorkingOrder(Names(Startup(c, listing)) + DrainedPaths(c, queued))
  }

  function Sized(order: seq<string>, sizeOf: string -> nat): (r: seq<Entry>)
    ensures |r| == |order|
    ensures forall i :: 0 <= i < |order| ==> r[i] == Entry(order[i], sizeOf(order[i]))
  {
    if order == [] then [] else [Entry(order[0], sizeOf(order[0]))] + Sized(order[1..], sizeOf)
  }

  // ------------------------------------------------------------ the cache

  class DiskCache {
    const config: Config
    var entries: seq<Entry>
    var stamps: map<string, int>
    var unlinked: seq<string>

    function Abs(): Disk
      reads this
    {
      Disk(entries, stamps, unlinked)
    }

    /** LruCache's own invariant: each key once, and the total within the maximum. */
    ghost predicate Valid()
      reads this
    {
      ConfigOk(config) && Distinct(entries) && Total(entries) <= config.max
    }

    constructor (config: Config)
      requires ConfigOk(config)
      ensures this.config == config && Abs() == Fresh
      ensures Valid()
    {
      this.config := config;
      entries := [];
      stamps := map[];
      unlinked := [];
    }

    /** `size()`. */
    function Size(): nat
      reads this
    {
      Total(entries)
    }

    /** `trimToSize(bound)`: evict the eldest entry while the total exceeds bound. */
    method TrimToSize(bound: int)
      modifies this
      ensures Abs() == Trimmed(config, old(Abs()), bound)
    {
      entries, unlinked := TrimEntries(config, entries, unlinked, bound);
    }

    /** `put(name, info)` followed by its trim. */
    method Put(e: Entry)
      requires Valid()
      modifies this
      ensures Valid()
      ensures Abs() == Stored(config, old(Abs()), e)
    {
      ghost var d0 := Abs();
      PutDistinct(entries, e, config.max);
      entries := Touch(entries, e);
      TrimToSize(config.max);
    }

    /** `remove(name)`: whether the name was cached. */
    method Remove(name: string) returns (found: bool)
      requires Valid()
      modifies this
      ensures Valid()
      ensures found == Has(old(entries), name)
      ensures Abs() == Removed(config, old(Abs()), name)
    {
      found := Has(entries, name);
      if found {
        var i :| 0 <= i < |entries| && entries[i].name == name;
        WithoutTotal(entries, name, i);
        WithoutSubseq(entries, name);
        entries := Without(entries, name);
        unlinked := unlinked + RemovalUnlinks(config, name);
      }
    }

    /** `evictAll()`: `trimToSize(-1)`. */
    method EvictAll()
      requires Valid()
      modifies this
      ensures Valid()
      ensures entries == [] && Size() == 0
      ensures Abs() == Trimmed(config, old(Abs()), -1)
      ensures unlinked == old(unlinked) + EvictionsUnlink(config, old(entries))
    {
      ghost var es := entries;
      TrimToSize(-1);
      assert Trim(es, -1) == [];
      assert Evicted(es, -1) == es;
    }

    /** One event processed by the watcher (or the live loop). */
    method OnEvent(k: Kind, path: Option<string>, isFile: bool, size: nat, now: int)
      requires Valid()
      modifies this
      ensures Valid()
      ensures Abs() == Observed(config, old(Abs()), k, path, isFile, size, now)
    {
      if !Accept(config, path, isFile) {
        return;
      }
      var name := path.value;
      match Dispatch(config.variant, k)
      case Drop =>
        var _ := Remove(name);
      case Refresh(stamp) =>
        if stamp {
          stamps := stamps[name := now];
        }
        Put(Entry(name, size));
    }

    /**
     * The start-up of the two Java caches and of `DiskLruCacheEx`: list the
     * accepted files, sort them by modification time and put them in order.
     */
    method Load(listing: seq<Listed>)
      requires Valid()
      modifies this
      ensures Valid()
      ensures Abs() == PutAll(config, old(Abs()), Startup(config, listing))
    {
      var files := Sorted(config, listing);
      for i := 0 to |files|
        invariant Valid()
        invariant Abs() == PutAll(config, old(Abs()), EntriesOf(files[..i]))
      {
        LoadStep(config, old(Abs()), files, i);
        Put(Entry(files[i].name, files[i].size));
      }
      assert files[..|files|] == files;
    }

    /**
     * `FileLruCache`'s start-up before the commit: the sorted listing, then
     * every queued event with an accepted path, moved to the end of the
     * working map in turn.
     */
    method Drain(listing: seq<Listed>, queued: seq<Queued>) returns (init: seq<string>)
      ensures init == Drained(config, listing, queued)
    {
      init := DrainOrder(config, Names(Startup(config, listing)), queued);
    }

    /** `FileLruCache`'s commit: put the working map's files in order, sized at that moment. */
    method Commit(init: seq<string>, sizeOf: string -> nat)
      requires Valid()
      modifies this
      ensures Valid()
      ensures Abs() == PutAll(config, old(Abs()), Sized(init, sizeOf))
    {
      for i := 0 to |init|
        invariant Valid()
        invariant Abs() == PutAll(config, old(Abs()), Sized(init[..i], sizeOf))
      {
        CommitStep(config, old(Abs()), init, i, sizeOf);
        Put(Entry(init[i], sizeOf(init[i])));
      }
      assert init[..|init|] == init;
    }

    /**
     * `UrlLoaderCache.clearCache(url)` for the url whose MD5 name is hex.
     * The urlloader class first deletes the header file (headerExisted says
     * whether that delete succeeded); the library class only removes the
     * entry.
     */
    method ClearCache(hex: string, headerExisted: bool) returns (cleared: bool)
      requires Valid() && config.pairing.Some?
      modifies this
      ensures Valid()
      ensures cleared == (Has(old(entries), CacheNaming.DataName(config.pairing.value, hex)) ||
                          (config.variant == FileLru && headerExisted))
      ensures Abs() == Removed(config, Cleared(config, old(Abs()), hex), CacheNaming.DataName(config.pairing.value, hex))
    {
      var p := config.pairing.value;
      var data := CacheNaming.DataName(p, hex);
      if config.variant == FileLru {
        unlinked := unlinked + [CacheNaming.FindHeader(p, data)];
        var found := Remove(data);
        cleared := found || headerExisted;
      } else {
        cleared := Remove(data);
      }
    }
  }

  /** The header deletion `clearCache` performs before its `remove`. */
  function Cleared(c: Config, d: Disk, hex: string): Disk
    requires c.pairing.Some?
  {
    if c.variant == FileLru then
      d.(unlinked := d.unlinked + [CacheNaming.FindHeader(c.pairing.value, CacheNaming.DataName(c.pairing.value, hex))])
    else d
  }

  /**
   * The two loops of `FileLruCache`'s start-up: move each listed name, then
   * each accepted queued path, to the end of the working map.
   */
  method DrainOrder(c: Config, names: seq<string>, queued: seq<Queued>) returns (init: seq<string>)
    ensures init == WorkingOrder(names + DrainedPaths(c, queued))
  {
    init := [];
    for i := 0 to |names|
      invariant init == WorkingOrder(names[..i])
    {
      WorkingOrderPrefix(names, i);
      init := MoveToEnd(init, names[i]);
    }
    assert names[..|names|] == names;
    var paths: seq<string> := [];
    assert names + paths == names;
    for j := 0 to |queued|
      invariant paths == DrainedPaths(c, queued[..j])
      invariant init == WorkingOrder(names + paths)
    {
      DrainedPathsSnoc(c, queued, j);
      var q := queued[j];
      if Accept(c, q.path, q.isFile) {
        WorkingOrderAfter(names, paths, q.path.value);
        init := MoveToEnd(init, q.path.value);
        paths := paths + [q.path.value];
      }
    }
    assert queued[..|queued|] == queued;
  }

  lemma WorkingOrderSnoc(t: seq<string>, x: string)
    ensures WorkingOrder(t + [x]) == MoveToEnd(WorkingOrder(t), x)
  {
    assert (t + [x])[..|t|] == t;
  }

  lemma WorkingOrderPrefix(names: seq<string>, i: nat)
    requires i < |names|
    ensures WorkingOrder(names[..i + 1]) == MoveToEnd(WorkingOrder(names[..i]), names[i])
  {
    assert names[..i + 1] == names[..i] + [names[i]];
    WorkingOrderSnoc(names[..i], names[i]);
  }

  lemma WorkingOrderAfter(names: seq<string>, paths: seq<string>, x: string)
    ensures WorkingOrder(names + (paths + [x])) == MoveToEnd(WorkingOrder(names + paths), x)
  {
    assert names + (paths + [x]) == (names + paths) + [x];
    WorkingOrderSnoc(names + paths, x);
  }

  lemma DrainedPathsSnoc(c: Config, queued: seq<Queued>, j: nat)
    requires j < |queued|
    ensures DrainedPaths(c, queued[..j + 1]) ==
            DrainedPaths(c, queued[..j]) + (if Accept(c, queued[j].path, queued[j].isFile) then [queued[j].path.value] else [])
  {
    assert queued[..j + 1][..j] == queued[..j];
  }

  lemma PutAllSnoc(c: Config, d: Disk, items: seq<Entry>, e: Entry)
    ensures PutAll(c, d, items + [e]) == Stored(c, PutAll(c, d, items), e)
  {
    assert (items + [e])[..|items|] == items;
  }

  /** One round of the start-up loop puts the next listed file. */
  lemma LoadStep(c: Config, d: Disk, files: seq<Listed>, i: nat)
    requires i < |files|
    ensures PutAll(c, d, EntriesOf(files[..i + 1])) ==
            Stored(c, PutAll(c, d, EntriesOf(files[..i])), Entry(files[i].name, files[i].size))
  {
    EntriesOfAppend(files, i);
    PutAllSnoc(c, d, EntriesOf(files[..i]), Entry(files[i].name, files[i].size));
  }

  /** One round of the commit loop puts the next name of the working map. */
  lemma CommitStep(c: Config, d: Disk, order: seq<string>, i: nat, sizeOf: string -> nat)
    requires i < |order|
    ensures PutAll(c, d, Sized(order[..i + 1], sizeOf)) ==
            Stored(c, PutAll(c, d, Sized(order[..i], sizeOf)), Entry(order[i], sizeOf(order[i])))
  {
    SizedAppend(order, i, sizeOf);
    PutAllSnoc(c, d, Sized(order[..i], sizeOf), Entry(order[i], sizeOf(order[i])));
  }

  lemma EntriesOfAppend(s: seq<Listed>, i: nat)
    requires i < |s|
    ensures EntriesOf(s[..i + 1]) == EntriesOf(s[..i]) + [Entry(s[i].name, s[i].size)]
  {
    assert EntriesOf(s[..i + 1])[i] == Entry(s[i].name, s[i].size);
  }

  lemma SizedAppend(order: seq<string>, i: nat, sizeOf: string -> nat)
    requires i < |order|
    ensures Sized(order[..i + 1], sizeOf) == Sized(order[..i], sizeOf) + [Entry(order[i], sizeOf(order[i]))]
  {
    assert Sized(order[..i + 1], sizeOf)[i] == Entry(order[i], sizeOf(order[i]));
  }

  /** One round of `trimToSize` leaves the final table as it is. */
  lemma TrimStep(rest: seq<Entry>, bound: int)
    requires rest != [] && Total(rest) > bound
    ensures Trim(rest[1..], bound) == Trim(rest, bound)
  {
  }

  lemma ShiftOne(gone: seq<Entry>, rest: seq<Entry>)
    requires rest != []
    ensures gone + rest == (gone + [rest[0]]) + rest[1..]
  {
    assert rest == [rest[0]] + rest[1..];
  }

  lemma UnlinkAppend(c: Config, u: seq<string>, gone: seq<Entry>, x: Entry)
    ensures u + EvictionsUnlink(c, gone + [x]) == (u + EvictionsUnlink(c, gone)) + EvictionUnlinks(c, x.name)
  {
    var g := gone + [x];
    assert g[..|g| - 1] == gone;
    assert g[|g| - 1] == x;
  }

  /**
   * The loop of `trimToSize`: walk from the eldest entry, deleting its files,
   * until what is left fits in bound.
   */
  method TrimEntries(c: Config, start: seq<Entry>, u: seq<string>, bound: int)
    returns (es: seq<Entry>, deleted: seq<string>)
    ensures es == Trim(start, bound)
    ensures deleted == u + EvictionsUnlink(c, Evicted(start, bound))
  {
    es, deleted := start, u;
    ghost var gone: seq<Entry> := [];
    while es != [] && Total(es) > bound
      invariant start == gone + es
      invariant Trim(es, bound) == Trim(start, bound)
      invariant deleted == u + EvictionsUnlink(c, gone)
      decreases |es|
    {
      var eldest := es[0];
      TrimStep(es, bound);
      ShiftOne(gone, es);
      UnlinkAppend(c, u, gone, eldest);
      es := es[1..];
      deleted := deleted + EvictionUnlinks(c, eldest.name);
      gone := gone + [eldest];
    }
    TrimDone(start, gone, es, bound);
  }

  /** When `trimToSize` stops, what it went past is what `Trim` evicts. */
  lemma TrimDone(start: seq<Entry>, gone: seq<Entry>, rest: seq<Entry>, bound: int)
    requires start == gone + rest
    requires Trim(rest, bound) == Trim(start, bound)
    requires rest == [] || Total(rest) <= bound
    ensures Trim(start, bound) == rest
    ensures Evicted(start, bound) == gone
  {
    assert start[..|gone|] == gone;
  }

  // ------------------------------------------------- the working map

  /** A `LinkedHashMap`'s key order holds each name once. */
  predicate Unique(s: seq<string>) {
    forall i, j :: 0 <= i < j < |s| ==> s[i] != s[j]
  }

  lemma {:induction false} DroppedMembers(o: seq<string>, n: string)
    ensures forall x :: x in Dropped(o, n) <==> x in o && x != n
  {
    if o != [] {
      DroppedMembers(o[1..], n);
      assert o == [o[0]] + o[1..];
    }
  }

  lemma {:induction false} DroppedAppend(a: seq<string>, b: seq<string>, n: string)
    ensures Dropped(a + b, n) == Dropped(a, n) + Dropped(b, n)
  {
    if a == [] {
      assert a + b == b;
    } else {
      assert (a + b)[0] == a[0] && (a + b)[1..] == a[1..] + b;
      DroppedAppend(a[1..], b, n);
      var head: seq<string> := if a[0] == n then [] else [a[0]];
      assert Dropped(a + b, n) == head + (Dropped(a[1..], n) + Dropped(b, n));
    }
  }

  /** Removing a name that is not in the map changes nothing. */
  lemma {:induction false} DroppedAbsent(o: seq<string>, n: string)
    requires n !in o
    ensures Dropped(o, n) == o
  {
    if o != [] {
      assert o[1..] == o[1..];
      assert n !in o[1..] by {
        assert forall x :: x in o[1..] ==> x in o;
      }
      DroppedAbsent(o[1..], n);
      assert o == [o[0]] + o[1..];
    }
  }

  lemma DroppedTwice(o: seq<string>, n: string)
    ensures Dropped(Dropped(o, n), n) == Dropped(o, n)
  {
    DroppedMembers(o, n);
    DroppedAbsent(Dropped(o, n), n);
  }

  /** Two removals commute. */
  lemma {:induction false} DroppedCommute(o: seq<string>, a: string, b: string)
    ensures Dropped(Dropped(o, a), b) == Dropped(Dropped(o, b), a)
  {
    if o != [] {
      DroppedCommute(o[1..], a, b);
      var x := o[0];
      var ha: seq<string> := if x == a then [] else [x];
      var hb: seq<string> := if x == b then [] else [x];
      DroppedAppend(ha, Dropped(o[1..], a), b);
      DroppedAppend(hb, Dropped(o[1..], b), a);
      assert Dropped(ha, b) == Dropped(hb, a);
    }
  }

  lemma {:induction false} DroppedUnique(o: seq<string>, n: string)
    requires Unique(o)
    ensures Unique(Dropped(o, n))
  {
    if o != [] {
      var t := o[1..];
      assert Unique(t) by {
        forall i, j | 0 <= i < j < |t| ensures t[i] != t[j] {
          assert t[i] == o[i + 1] && t[j] == o[j + 1];
        }
      }
      DroppedUnique(t, n);
      DroppedMembers(t, n);
      assert o[0] !in t by {
        forall i | 0 <= i < |t| ensures t[i] != o[0] {
          assert t[i] == o[i + 1];
        }
      }
      var r := Dropped(t, n);
      var q := (if o[0] == n then [] else [o[0]]) + r;
      forall i, j | 0 <= i < j < |q| ensures q[i] != q[j] {
        if o[0] != n && i == 0 {
          assert q[j] == r[j - 1] && q[j] in r;
        }
      }
    }
  }

  /** The working map holds exactly the names moved into it. */
  lemma {:induction false} WorkingOrderMembers(t: seq<string>)
    ensures forall x :: x in WorkingOrder(t) <==> x in t
  {
    if t != [] {
      var init, y := t[..|t| - 1], t[|t| - 1];
      WorkingOrderMembers(init);
      DroppedMembers(WorkingOrder(init), y);
      assert t == init + [y];
    }
  }

  /** ... and holds each of them once. */
  lemma {:induction false} WorkingOrderUnique(t: seq<string>)
    ensures Unique(WorkingOrder(t))
  {
    if t != [] {
      var init, y := t[..|t| - 1], t[|t| - 1];
      WorkingOrderUnique(init);
      var o := Dropped(WorkingOrder(init), y);
      DroppedUnique(WorkingOrder(init), y);
      DroppedMembers(WorkingOrder(init), y);
      var q := o + [y];
      forall i, j | 0 <= i < j < |q| ensures q[i] != q[j] {
        if j == |q| - 1 {
          assert q[i] == o[i] && q[i] in o;
        } else {
          assert q[i] == o[i] && q[j] == o[j];
        }
      }
    }
  }

  lemma UniqueInit(t: seq<string>)
    requires Unique(t) && t != []
    ensures Unique(t[..|t| - 1]) && t[|t| - 1] !in t[..|t| - 1]
  {
    var init := t[..|t| - 1];
    forall i, j | 0 <= i < j < |init| ensures init[i] != init[j] {
      assert init[i] == t[i] && init[j] == t[j];
    }
    forall i | 0 <= i < |init| ensures init[i] != t[|t| - 1] {
      assert init[i] == t[i];
    }
  }

  /** Names that are each moved once keep the order they were moved in. */
  lemma {:induction false} WorkingOrderOfUnique(t: seq<string>)
    requires Unique(t)
    ensures WorkingOrder(t) == t
  {
    if t != [] {
      var init, y := t[..|t| - 1], t[|t| - 1];
      UniqueInit(t);
      WorkingOrderOfUnique(init);
      DroppedAbsent(init, y);
      assert t == init + [y];
    }
  }

  /** Removing a name from the final map is the same as never having moved it. */
  lemma {:induction false} DroppedWorkingOrder(t: seq<string>, x: string)
    ensures Dropped(WorkingOrder(t), x) == WorkingOrder(Dropped(t, x))
  {
    if t != [] {
      var init, y := t[..|t| - 1], t[|t| - 1];
      assert t == init + [y];
      DroppedWorkingOrder(init, x);
      WorkingOrderSnoc(init, y);
      var w := WorkingOrder(init);
      DroppedAppend(Dropped(w, y), [y], x);
      DroppedAppend(init, [y], x);
      if y == x {
        assert Dropped([y], x) == [];
        DroppedTwice(w, x);
        assert Dropped(w, x) + [] == Dropped(w, x);
        assert Dropped(init, x) + [] == Dropped(init, x);
      } else {
        assert Dropped([y], x) == [y];
        DroppedCommute(w, y, x);
        WorkingOrderSnoc(Dropped(init, x), y);
      }
    }
  }

  /** Moving x last ends the map with x after the map of the other moves. */
  lemma WorkingOrderLast(s: seq<string>, x: string)
    ensures WorkingOrder(s + [x]) == WorkingOrder(Dropped(s, x)) + [x]
  {
    WorkingOrderSnoc(s, x);
    DroppedWorkingOrder(s, x);
  }

  /**
   * Only the last move of a name decides its place: an earlier move of x
   * that a later one follows can be left out.
   */
  lemma {:induction false} LastTouchDecides(a: seq<string>, x: string, b: seq<string>)
    requires x in b
    ensures WorkingOrder(a + [x] + b) == WorkingOrder(a + b)
  {
    var init, y := b[..|b| - 1], b[|b| - 1];
    assert b == init + [y];
    assert a + [x] + b == (a + [x] + init) + [y];
    assert a + b == (a + init) + [y];
    if y == x {
      WorkingOrderLast(a + [x] + init, x);
      WorkingOrderLast(a + init, x);
      DroppedAppend(a + [x], init, x);
      DroppedAppend(a, [x], x);
      DroppedAppend(a, init, x);
      assert Dropped([x], x) == [];
      assert Dropped(a, x) + [] == Dropped(a, x);
    } else {
      assert x in init;
      LastTouchDecides(a, x, init);
      WorkingOrderSnoc(a + [x] + init, y);
      WorkingOrderSnoc(a + init, y);
    }
  }

  /**
   * The drain starts from the sorted listing unchanged: its names are
   * already distinct. The resulting map holds the listed names and the
   * accepted queued paths, each once.
   */
  lemma DrainedShape(c: Config, listing: seq<Listed>, queued: seq<Queued>)
    requires UniqueNames(listing)
    ensures WorkingOrder(Names(Startup(c, listing))) == Names(Startup(c, listing))
    ensures Unique(Drained(c, listing, queued))
    ensures forall x :: x in Drained(c, listing, queued) <==>
                        x in Names(Startup(c, listing)) || x in DrainedPaths(c, queued)
  {
    var names := Names(Startup(c, listing));
    StartupDistinct(c, listing);
    WorkingOrderOfUnique(names);
    WorkingOrderUnique(names + DrainedPaths(c, queued));
    WorkingOrderMembers(names + DrainedPaths(c, queued));
  }

  // ------------------------------------------------- start-up theorems

  /** The accepted files of a directory, sorted, have distinct names. */
  lemma StartupDistinct(c: Config, listing: seq<Listed>)
    requires UniqueNames(listing)
    ensures Distinct(Startup(c, listing))
    ensures Unique(Names(Startup(c, listing)))
  {
    var acc := Accepted(listing, AcceptListed(c));
    AcceptedUnique(listing, AcceptListed(c));
    SortUnique(acc, StartupCompare(c.variant));
  }

  /** A cache's table after putting items in turn is the LRU replay of those items. */
  lemma {:induction false} PutAllIsReplay(c: Config, d: Disk, items: seq<Entry>)
    requires d.entries == []
    ensures PutAll(c, d, items).entries == Replay(items, c.max)
  {
    if items != [] {
      PutAllIsReplay(c, d, items[..|items| - 1]);
    }
  }

  /**
   * The LRU theorem for the disk caches: from an empty table, admissible
   * puts (each name new, or still cached and not shrinking) leave the
   * longest most recent suffix of the access order that fits the maximum.
   */
  lemma PutAllKeepsRecent(c: Config, items: seq<Entry>)
    requires Admissible(items, c.max)
    ensures PutAll(c, Fresh, items).entries == Trim(Ideal(items), c.max)
  {
    PutAllIsReplay(c, Fresh, items);
    ReplayIsTrimmedIdeal(items, c.max);
  }

  /**
   * Start-up of the Java caches and of `DiskLruCacheEx`: the table after
   * loading a directory is the longest tail of the sorted accepted files
   * that fits the maximum. The sort keeps every accepted file, and it is
   * oldest first, so that every file outside the table is older than every
   * file in it, for the caches that compare with `Long.compare` or
   * `sortedBy`, and for the urlloader `DiskLruCache.java` while the
   * modification times lie less than 2^31 ms apart.
   */
  lemma LoadKeepsNewest(c: Config, listing: seq<Listed>)
    requires UniqueNames(listing)
    ensures c.variant != DiskLruJava || CloseTimes(listing) ==> Ascending(Sorted(c, listing))
    ensures multiset(Sorted(c, listing)) == multiset(Accepted(listing, AcceptListed(c)))
    ensures PutAll(c, Fresh, Startup(c, listing)).entries == Trim(Startup(c, listing), c.max)
  {
    var items := Startup(c, listing);
    var acc := Accepted(listing, AcceptListed(c));
    SortPerm(acc, StartupCompare(c.variant));
    if c.variant != DiskLruJava {
      ByModificationSorts(acc);
    } else if CloseTimes(listing) {
      assert CloseTimes(acc);
      TruncatedSortsWhenClose(acc);
    }
    StartupDistinct(c, listing);
    FreshKeysAdmissible(items, c.max);
    PutAllKeepsRecent(c, items);
  }

  lemma KeepsYoungerOfTwo(a: Entry, b: Entry)
    requires a.size == 1 && b.size == 1
    ensures Trim([a, b], 1) == [b]
  {
    assert [a, b][1..] == [b];
    assert Total([b]) == 1;
    assert Total([a, b]) == 2;
  }

  /**
   * The urlloader `DiskLruCache.java` starting up on two files modified
   * 3 * 10^9 ms apart, listed oldest first, with room for one: its sort puts
   * the newer file first, so the start-up keeps the older file and evicts
   * the newer one.
   */
  lemma TruncatedStartupEvictsNewer()
    ensures Startup(Config(DiskLruJava, 1, None), [Older, Newer]) == [Entry("newer", 1), Entry("older", 1)]
    ensures PutAll(Config(DiskLruJava, 1, None), Fresh, Startup(Config(DiskLruJava, 1, None), [Older, Newer])).entries ==
            [Entry("older", 1)]
  {
    var c := Config(DiskLruJava, 1, None);
    assert Accepted([Older, Newer], AcceptListed(c)) == [Older, Newer];
    TruncatedCompareMisorders();
    assert Startup(c, [Older, Newer]) == [Entry("newer", 1), Entry("older", 1)];
    LoadKeepsNewest(c, [Older, Newer]);
    KeepsYoungerOfTwo(Entry("newer", 1), Entry("older", 1));
  }

  /** The library `DiskLruCache` on the same directory keeps the newer file. */
  lemma LongStartupKeepsNewer()
    ensures Startup(Config(LibraryDiskLru, 1, None), [Older, Newer]) == [Entry("older", 1), Entry("newer", 1)]
    ensures PutAll(Config(LibraryDiskLru, 1, None), Fresh, Startup(Config(LibraryDiskLru, 1, None), [Older, Newer])).entries ==
            [Entry("newer", 1)]
  {
    var c := Config(LibraryDiskLru, 1, None);
    assert Accepted([Older, Newer], AcceptListed(c)) == [Older, Newer];
    assert [Older, Newer][1..] == [Newer] && [Newer][1..] == [];
    assert LongCompare(Older.mtime, Newer.mtime) < 0;
    assert Insert(Older, [Newer], LongCompare) == [Older] + [Newer] == [Older, Newer];
    assert StartupCompare(c.variant) == LongCompare;
    assert SortWith([Newer], LongCompare) == [Newer];
    assert Sorted(c, [Older, Newer]) == Insert(Older, [Newer], LongCompare);
    assert Startup(c, [Older, Newer]) == [Entry("older", 1), Entry("newer", 1)];
    LoadKeepsNewest(c, [Older, Newer]);
    KeepsYoungerOfTwo(Entry("older", 1), Entry("newer", 1));
  }

  /** `FileLruCache`'s commit of a working map likewise keeps its longest fitting tail. */
  lemma CommitKeepsRecent(c: Config, init: seq<string>, sizeOf: string -> nat)
    requires Unique(init)
    ensures PutAll(c, Fresh, Sized(init, sizeOf)).entries == Trim(Sized(init, sizeOf), c.max)
  {
    var items := Sized(init, sizeOf);
    assert Distinct(items) by {
      forall i, j | 0 <= i < j < |items| ensures items[i].name != items[j].name {
        assert items[i].name == init[i] && items[j].name == init[j];
      }
    }
    FreshKeysAdmissible(items, c.max);
    PutAllKeepsRecent(c, items);
  }

  // ------------------------------------------------- one event

  /**
   * `remove(name)`: the name leaves the table and nothing else does; the
   * cache's deletion hook runs exactly when an entry was there.
   */
  lemma RemovedEffect(c: Config, d: Disk, name: string)
    requires Distinct(d.entries)
    ensures Distinct(Removed(c, d, name).entries)
    ensures !Has(Removed(c, d, name).entries, name)
    ensures forall x :: x != name ==> (Has(Removed(c, d, name).entries, x) <==> Has(d.entries, x))
    ensures forall e :: e in Removed(c, d, name).entries ==> e in d.entries
    ensures Total(Removed(c, d, name).entries) <= Total(d.entries)
    ensures Removed(c, d, name).stamps == d.stamps
    ensures Removed(c, d, name).unlinked ==
            d.unlinked + (if Has(d.entries, name) then RemovalUnlinks(c, name) else [])
  {
    if Has(d.entries, name) {
      var i :| 0 <= i < |d.entries| && d.entries[i].name == name;
      WithoutLacks(d.entries, name);
      WithoutSubseq(d.entries, name);
      WithoutTotal(d.entries, name, i);
      forall x | x != name ensures Has(Without(d.entries, name), x) <==> Has(d.entries, x) {
        WithoutKeepsOthers(d.entries, name, x);
      }
    }
  }

  /**
   * `put(e)`: the new table and the evicted entries together are the old
   * table with e moved to the youngest end. An entry that fits stays, as
   * the youngest, and no evicted entry carries its name, so re-putting a
   * name never deletes its file; an entry larger than the maximum empties
   * the table.
   */
  lemma StoredEffect(c: Config, d: Disk, e: Entry)
    requires Distinct(d.entries)
    ensures Distinct(Stored(c, d, e).entries) && Total(Stored(c, d, e).entries) <= c.max
    ensures Stored(c, d, e).stamps == d.stamps
    ensures Evicted(Touch(d.entries, e), c.max) + Stored(c, d, e).entries == Without(d.entries, e.name) + [e]
    ensures Stored(c, d, e).unlinked == d.unlinked + EvictionsUnlink(c, Evicted(Touch(d.entries, e), c.max))
    ensures e.size <= c.max ==>
              Stored(c, d, e).entries != [] && Stored(c, d, e).entries[|Stored(c, d, e).entries| - 1] == e
    ensures e.size <= c.max ==>
              forall x :: x in Evicted(Touch(d.entries, e), c.max) ==> x in d.entries && x.name != e.name
    ensures e.size > c.max ==> Stored(c, d, e).entries == []
  {
    var t := Touch(d.entries, e);
    var s := Trim(t, c.max);
    PutDistinct(d.entries, e, c.max);
    TrimSuffix(t, c.max);
    assert t[|t| - 1] == e;
    if e.size <= c.max {
      StoredFitting(c, d, e);
    } else if s != [] {
      var n := |s| - 1;
      assert s[n] == e;
      assert s == s[..n] + [s[n]];
      TotalAppend(s[..n], [s[n]]);
      assert false;
    }
  }

  /** An entry that fits stays as the youngest, and nothing evicted carries its name. */
  lemma StoredFitting(c: Config, d: Disk, e: Entry)
    requires Distinct(d.entries) && e.size <= c.max
    ensures Stored(c, d, e).entries != [] && Stored(c, d, e).entries[|Stored(c, d, e).entries| - 1] == e
    ensures forall x :: x in Evicted(Touch(d.entries, e), c.max) ==> x in d.entries && x.name != e.name
  {
    var t := Touch(d.entries, e);
    var s := Trim(t, c.max);
    var ev := Evicted(t, c.max);
    var w := Without(d.entries, e.name);
    TrimSuffix(t, c.max);
    assert t[|t| - 1] == e;
    assert t[|t| - 1..] == [e];
    assert Total([e]) == e.size;
    TrimKeepsFitting(t, c.max, |t| - 1);
    assert s[|s| - 1] == t[|t| - 1];
    WithoutLacks(d.entries, e.name);
    WithoutMembers(d.entries, e.name);
    forall x | x in ev ensures x in d.entries && x.name != e.name {
      var i :| 0 <= i < |ev| && ev[i] == x;
      assert ev[i] == t[i] && t[i] == w[i];
    }
  }

  /**
   * The library cache deletes a file only when its entry is evicted, and
   * only the entry's own file; the urlloader caches run `onDelete` for a
   * removal too.
   */
  lemma {:induction false} LibraryDeletesOnEviction(c: Config, es: seq<Entry>, name: string)
    requires c.variant == LibraryDiskLru
    ensures RemovalUnlinks(c, name) == []
    ensures EvictionsUnlink(c, es) == Names(es)
  {
    if es != [] {
      var init := es[..|es| - 1];
      LibraryDeletesOnEviction(c, init, name);
      assert Names(es) == Names(init) + [es[|es| - 1].name];
    }
  }

  /** Which event kinds drop an entry, and which set the file's modification time. */
  lemma DispatchTables(v: Variant, k: Kind)
    ensures v == LibraryDiskLru ==> (Dispatch(v, k).Drop? <==> k == Open)
    ensures v != LibraryDiskLru ==> (Dispatch(v, k).Drop? <==> k == MovedFrom || k == Delete)
    ensures v == LibraryDiskLru ==> (Dispatch(v, k) == Refresh(true) <==> k == CloseNoWrite)
    ensures v == DiskLruJava ==> (Dispatch(v, k) == Refresh(true) <==> k == Open || k == CloseNoWrite)
    ensures v == FileLru || v == DiskLruEx ==> (Dispatch(v, k).Refresh? <==> Dispatch(v, k) == Refresh(true))
  {
  }

  /** Events on a null or unaccepted path leave the cache as it is. */
  lemma IgnoredEvent(c: Config, d: Disk, k: Kind, path: Option<string>, isFile: bool, size: nat, now: int)
    requires path.None? || !Accept(c, path, isFile)
    ensures Observed(c, d, k, path, isFile, size, now) == d
  {
  }
}
