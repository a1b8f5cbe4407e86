# UrlLoader in Dafny

A Dafny model of the core of UrlLoader, an Android library that downloads
URLs into a size-bounded disk cache and lets several callers share one
download. The model covers three families of logic.

- **Task registries.** There are three of them:
  - the urlloader `MultiObserverTaskManager` (Java);
  - the library `MultiObserverTaskManager` (Java);
  - the urlloader `TaskManagerEx` (Kotlin).

  The two urlloader registries keep four linked tables: key to task, id to
  task, tag to ids, and id to tag. The library one has no tags. An observer joins the task of its key, or starts one, and gets the
  lowest free id. Observers detach one by one, by tag, by key or all at once.
  A task is cancelled once, when its last observer leaves or when it is
  cancelled by key. Each registry is a class with map fields. Every public
  call is one atomic step, proved to keep these invariants:
  - at most one task per key;
  - ids unique and lowest-free;
  - tag tables mutually consistent, with no empty tag;
  - cancellation happens only once.
- **Disk caches.** There are four of them:
  - `FileLruCache`;
  - the two urlloader `DiskLruCache`s (Java and Kotlin);
  - the library `DiskLruCache`.

  Each keeps an `android.util.LruCache` of the accepted files of one
  directory. It fills the cache at start-up from a listing sorted by
  modification time, then applies file events by its own table of event
  kinds. It evicts the eldest entries beyond its maximum and deletes their
  files. This part also covers:
  - the file naming: MD5 hex in two spellings, and the suffix joining of
    `getFile`;
  - the header/data pairing of the two `UrlLoaderCache` subclasses;
  - a proof that the bounded table equals the unbounded access order
    trimmed to the maximum.
- **Loaders.** The Kotlin `UrlLoader` and the two Java `UrlLoader`s:
  - the decision between a full download, a range resume (`Range` and
    `If-Range`, answered by 206), serving the cached copy, and a conditional
    revalidation (`If-None-Match` / `If-Modified-Since`, answered by 304);
  - the header merge and the freshness test by max-age;
  - the buffer-size arithmetic;
  - the body read loops, as methods with loop invariants;
  - `checkDownload`;
  - the choice of the callbacks a finished task delivers.

One Dafny module stands for each part of the program:

| module | program part |
|---|---|
| `Common` | small shared vocabulary |
| `Hooks` | the user hooks, recorded as a log |
| `Tags` | the tag tables |
| `ObserverTaskManager` | urlloader `MultiObserverTaskManager.java` |
| `LibraryTaskManager` | library `MultiObserverTaskManager.java` |
| `TaskManagerEx` | `TaskManagerEx.kt` |
| `Lru` | the `LruCache` contract |
| `Listing` | the start-up sort |
| `Md5Hex` | MD5 hex spellings |
| `CacheNaming` | `getFile` and the `UrlLoaderCache` pairing |
| `FileCache` | the four watching caches, one class with a variant |
| `HttpHeaders` | OkHttp `Headers` lookups, `merge`, the Last-Checked stamp, `isFresh` |
| `Loading` | what the loaders share |
| `UrlLoaderKt` | `UrlLoader.kt` |
| `UrlLoaderJava` | both `UrlLoader.java` files |

Inputs from outside the program come in as parameters. These are:
- the clock;
- the parsed `CacheControl` max-age;
- the network's answer to each request;
- the files' existence, lengths and modification times;
- whether a reset, a write, `setWritable` or `copyFile` succeeds;
- the MD5 digest.

Each load issues at most one request. So the network is one value: the
response, or none when the URL is invalid or the call fails.

`TaskManagerEx` keeps its sync observers in a `HashSet`
(TaskManagerEx.kt:156), so an observer that joins twice is held once.

Both Java loaders are modelled twice over, by a version parameter: the code
as written, and with the two faults under "## Findings" corrected. Every
property of the Java loaders is stated for both versions.

## Model

| member | source | states |
|---|---|---|
| Common.DropLast | library/src/main/java/com/shxhzhxx/urlloader/UrlLoaderCache.kt:24 | Kotlin dropLast: the string without its last n characters, empty when n is too large, and always a prefix |
| Common.TakeLast | library/src/main/java/com/shxhzhxx/urlloader/UrlLoaderCache.kt:7-8 | Kotlin takeLast: the last n characters, or the whole string when it is shorter, and always a suffix |
| Common.IndexOf | library/src/main/java/com/shxhzhxx/library/UrlLoader.java:116-121 | the first position of the character, or the length when it does not occur: that character is there and none before it |
| Common.CountBelow | library/src/main/java/com/shxhzhxx/urlloader/MultiObserverTaskManager.java:149-153 | when every id below n is taken, at least n ids are taken, which bounds the id search |
| Common.ToInt32 | library/src/main/java/com/shxhzhxx/urlloader/DiskLruCache.java:150-153 | the JVM narrowing cast: a 32-bit value congruent to its input modulo 2^32, and the input itself when it fits |
| Common.EnumeratesLists | library/src/main/java/com/shxhzhxx/urlloader/MultiObserverTaskManager.java:99-100 | an enumeration of a snapshot set, the order a loop over the copy visits it, holds no element twice and holds exactly the set's elements |
| Hooks.CountsAppend | library/src/main/java/com/shxhzhxx/urlloader/MultiObserverTaskManager.java:240-244 | appending one hook to a log adds one to exactly the count of its kind |
| Hooks.CancelsConcat | library/src/main/java/com/shxhzhxx/urlloader/MultiObserverTaskManager.java:240-244 | the cancellation hooks of two logs add up |
| Hooks.NoLaterCancel | library/src/main/java/com/shxhzhxx/urlloader/MultiObserverTaskManager.java:240-244 | a log extension that adds no cancellation count holds no cancellation hook |
| Hooks.AppendKeepsRunsBeforeCancel | library/src/main/java/com/shxhzhxx/urlloader/MultiObserverTaskManager.java:253-257 | appending a hook keeps every body run before every cancellation, provided a run is only appended before any cancellation |
| Hooks.NoRunAfterCancel | library/src/main/java/com/shxhzhxx/urlloader/MultiObserverTaskManager.java:253-257 | once a log holds a cancellation, no later entry of a well-ordered extension is a body run |
| Tags.TagsWithoutCompose | library/src/main/java/com/shxhzhxx/urlloader/MultiObserverTaskManager.java:279-285 | removing two id sets from the tag table one after the other is removing their union |
| Tags.WithoutKeepsValid | library/src/main/java/com/shxhzhxx/urlloader/MultiObserverTaskManager.java:325-336 | removing ids from both tag tables keeps each tag's set equal to the ids tagged with it, and no set empty |
| Tags.WithKeepsValid | library/src/main/java/com/shxhzhxx/urlloader/MultiObserverTaskManager.java:80-88 | linking an untagged id to a tag keeps the two tag tables consistent |
| Tags.WithoutUntagged | library/src/main/java/com/shxhzhxx/urlloader/MultiObserverTaskManager.java:325-328 | removeTagId of an untagged id changes nothing |
| Tags.WithoutTagged | library/src/main/java/com/shxhzhxx/urlloader/MultiObserverTaskManager.java:329-335 | removeTagId of a tagged id removes it from its tag's set, and the tag with it when the set empties |
| Md5Hex.HexDigit | library/src/main/java/com/shxhzhxx/urlloader/DiskLruCache.java:164 | one hexadecimal digit, in lower case |
| Md5Hex.DigitRoundTrip | library/src/main/java/com/shxhzhxx/urlloader/DiskLruCache.java:164 | a digit reads back as the value it was written for |
| Md5Hex.ToHex | library/src/main/java/com/shxhzhxx/urlloader/FileLruCache.kt:120 | BigInteger.toString(16) of a non-negative value is never empty |
| Md5Hex.Fixed | library/src/main/java/com/shxhzhxx/urlloader/FileLruCache.kt:120 | the value in exactly k hexadecimal digits |
| Md5Hex.PadStart | library/src/main/java/com/shxhzhxx/urlloader/FileLruCache.kt:120 | padStart: at least k characters, and the padded string ends with the original |
| Md5Hex.ByteShape | library/src/main/java/com/shxhzhxx/urlloader/DiskLruCache.java:164 | toHexString of (b & 0xFF) \| 0x100 is a 1 followed by the byte's two digits |
| Md5Hex.ByteHex | library/src/main/java/com/shxhzhxx/urlloader/DiskLruCache.java:164 | substring(1, 3) of that is the byte's high digit, then its low digit |
| Md5Hex.PerByteMd5 | library/src/main/java/com/shxhzhxx/urlloader/DiskLruCache.java:161-166 | the loop over the digest appends each byte's two digits in order |
| Md5Hex.PerByteShape | library/src/main/java/com/shxhzhxx/library/DiskLruCache.java:117-123 | the per-byte spelling has two lower-case hex digits per byte |
| Md5Hex.PerBytePair | library/src/main/java/com/shxhzhxx/library/DiskLruCache.java:117-123 | characters 2i and 2i+1 of the per-byte spelling are the digits of byte i |
| Md5Hex.PerByteInjective | library/src/main/java/com/shxhzhxx/library/DiskLruCache.java:117-123 | distinct digests of one length get distinct names |
| Md5Hex.PadIsFixed | library/src/main/java/com/shxhzhxx/urlloader/FileLruCache.kt:120 | padding the BigInteger spelling of a value below 16^k to k digits gives its fixed-width spelling |
| Md5Hex.PerByteIsFixed | library/src/main/java/com/shxhzhxx/urlloader/DiskLruCache.java:161-166 | the per-byte spelling is the digest's value written in exactly two digits per byte |
| Md5Hex.SpellingsAgree | library/src/main/java/com/shxhzhxx/urlloader/DiskLruCache.kt:81 | for a 16-byte digest the Kotlin BigInteger spelling and the Java per-byte spelling are the same 32 characters |
| CacheNaming.NamesSplit | library/src/main/java/com/shxhzhxx/urlloader/FileLruCache.kt:122-123 | each getFile spelling splits back into the 32-character MD5 name and what the suffix added |
| CacheNaming.SpellingsDifferOnBlank | library/src/main/java/com/shxhzhxx/urlloader/DiskLruCache.kt:85 | the Java and the Kotlin getFile differ exactly for a suffix that is non-empty but blank |
| CacheNaming.SeededSuffixes | library/src/main/java/com/shxhzhxx/urlloader/UrlLoaderCache.kt:7-8 | the seeded data and header suffixes are 8 lower-case hex digits each |
| CacheNaming.PairSize | library/src/main/java/com/shxhzhxx/urlloader/UrlLoaderCache.kt:10 | the size of a data file and its header, narrowed to int, is their sum while it fits |
| CacheNaming.PairingsWellFormed | library/src/main/java/com/shxhzhxx/library/UrlLoaderCache.java:9-10 | both pairings meet the suffix conditions; the library suffixes "6aef4_d" and "6aef4_h" are of one length and differ; for the seeded pairing that the two suffixes differ is an assumption about the two digests, which `HeaderIgnored` takes as a precondition |
| CacheNaming.HeaderOfData | library/src/main/java/com/shxhzhxx/urlloader/UrlLoaderCache.kt:24 | findHeaderCache of a URL's data file is that URL's header file |
| CacheNaming.DataAccepted | library/src/main/java/com/shxhzhxx/library/UrlLoaderCache.java:16-19 | the cache's file filter accepts every data file name |
| CacheNaming.HeaderIgnored | library/src/main/java/com/shxhzhxx/urlloader/UrlLoaderCache.kt:9 | the file filter rejects every header file name, so header files never enter the LRU table |
| ObserverTaskManager.TaskManager.constructor | library/src/main/java/com/shxhzhxx/urlloader/MultiObserverTaskManager.java:29-37 | the four tables start empty and the invariant holds |
| ObserverTaskManager.TaskManager.GenerateObserverId | library/src/main/java/com/shxhzhxx/urlloader/MultiObserverTaskManager.java:149-153 | returns the lowest non-negative id not registered: the id is free and every smaller one is taken |
| ObserverTaskManager.TaskManager.IsRunning | library/src/main/java/com/shxhzhxx/urlloader/MultiObserverTaskManager.java:106-109 | true exactly for a non-empty key whose task is live in the key table |
| ObserverTaskManager.TaskManager.RemoveTagId | library/src/main/java/com/shxhzhxx/urlloader/MultiObserverTaskManager.java:325-336 | unlinks the id from its tag and drops the tag once its id set is empty; nothing happens for an untagged id |
| ObserverTaskManager.TaskManager.Clear | library/src/main/java/com/shxhzhxx/urlloader/MultiObserverTaskManager.java:279-285 | drops the task's key and, for each of its ids, the id entry and its tag link, keeping the task's observer map |
| ObserverTaskManager.TaskManager.CancelTask | library/src/main/java/com/shxhzhxx/urlloader/MultiObserverTaskManager.java:240-244 | sets the cancelled flag, cancels the future and records one onCanceled call |
| ObserverTaskManager.TaskManager.Attach | library/src/main/java/com/shxhzhxx/urlloader/MultiObserverTaskManager.java:73-77 | returns the key's task, building and registering a new task under the key when there is none |
| ObserverTaskManager.TaskManager.RegisterObserver | library/src/main/java/com/shxhzhxx/urlloader/MultiObserverTaskManager.java:291-294 | puts the observer into the task's map and the id into the id table |
| ObserverTaskManager.TaskManager.LinkTag | library/src/main/java/com/shxhzhxx/urlloader/MultiObserverTaskManager.java:80-88 | links the id to a non-empty tag in both tag tables; an empty tag links nothing |
| ObserverTaskManager.TaskManager.Start | library/src/main/java/com/shxhzhxx/urlloader/MultiObserverTaskManager.java:67-90 | returns -1 and changes nothing for an empty key or a missing builder; otherwise returns the lowest free id, registered with the key's task, and keeps the invariant |
| ObserverTaskManager.TaskManager.UnregisterObserver | library/src/main/java/com/shxhzhxx/urlloader/MultiObserverTaskManager.java:306-318 | unlinks the id, reports its observer, and drops the key and cancels the task when it was the last observer; keeps the invariant |
| ObserverTaskManager.TaskManager.UnregisterAll | library/src/main/java/com/shxhzhxx/urlloader/MultiObserverTaskManager.java:320-323 | clears the task, then cancels it, keeping the invariant |
| ObserverTaskManager.TaskManager.Cancel | library/src/main/java/com/shxhzhxx/urlloader/MultiObserverTaskManager.java:111-124 | true exactly when the id is registered, and then detaches that one observer; otherwise nothing changes |
| ObserverTaskManager.TaskManager.CancelKey | library/src/main/java/com/shxhzhxx/urlloader/MultiObserverTaskManager.java:126-141 | true exactly for a non-empty registered key, whose task is then unregistered entirely; otherwise nothing changes |
| ObserverTaskManager.TaskManager.CancelByTag | library/src/main/java/com/shxhzhxx/urlloader/MultiObserverTaskManager.java:93-104 | true exactly when the tag is registered; the ids of a snapshot of its set are cancelled one by one in the snapshot's iteration order, the new state being that fold of `cancel(id)`, so the tag and each of its ids leave every table; an unknown tag changes nothing |
| ObserverTaskManager.TaskManager.CancelStep | library/src/main/java/com/shxhzhxx/urlloader/MultiObserverTaskManager.java:100-102 | one round of the tag loop is `cancel(id)` on that id, which removes exactly that id from the id and tag tables |
| ObserverTaskManager.CanceledIdsEffect | library/src/main/java/com/shxhzhxx/urlloader/MultiObserverTaskManager.java:93-104 | cancelling a set of registered ids in any order keeps the invariant and removes exactly those ids from the id table, the id-to-tag table and the tag sets |
| ObserverTaskManager.CanceledKeysEffect | library/src/main/java/com/shxhzhxx/urlloader/MultiObserverTaskManager.java:143-147 | cancelling a set of registered keys in any order removes exactly those keys, cancels each live task under one of them once, and leaves every other task as it was |
| ObserverTaskManager.DetachedTables | library/src/main/java/com/shxhzhxx/urlloader/MultiObserverTaskManager.java:115-124 | `cancel(id)` of a registered id removes exactly that id from the id table, the id-to-tag table and its tag's set |
| ObserverTaskManager.TaskManager.CancelAll | library/src/main/java/com/shxhzhxx/urlloader/MultiObserverTaskManager.java:143-147 | the keys of a snapshot are cancelled one by one in its iteration order, the new state being that fold of `cancel(key)`; every table ends empty, and every live task, and only those, is cancelled once with nothing else about it changed |
| ObserverTaskManager.TaskManager.Begin | library/src/main/java/com/shxhzhxx/urlloader/MultiObserverTaskManager.java:175-178 | the pool starting the future keeps the invariant |
| ObserverTaskManager.TaskManager.Run | library/src/main/java/com/shxhzhxx/urlloader/MultiObserverTaskManager.java:180-191 | a cancelled task returns at once; otherwise the body runs and a result message is posted, with no result runnable when it threw |
| ObserverTaskManager.TaskManager.RunResult | library/src/main/java/com/shxhzhxx/urlloader/MultiObserverTaskManager.java:193-205 | the posted message leaves a cancelled task alone, otherwise clears it and runs the result |
| ObserverTaskManager.IdsRemovedStep | library/src/main/java/com/shxhzhxx/urlloader/MultiObserverTaskManager.java:281-284 | one more round of the clear loop (drop the id, then its tag link) removes one more id |
| ObserverTaskManager.ReplacedKeepsInv | library/src/main/java/com/shxhzhxx/urlloader/MultiObserverTaskManager.java:161-173 | replacing a task's record without changing its key, observers or liveness keeps the registry invariant |
| ObserverTaskManager.ClearedReplacedKeepsInv | library/src/main/java/com/shxhzhxx/urlloader/MultiObserverTaskManager.java:279-285 | clearing a live task that is no longer active keeps the registry invariant |
| ObserverTaskManager.JoinedKeepsTags | library/src/main/java/com/shxhzhxx/urlloader/MultiObserverTaskManager.java:80-88 | after start, each tag maps to the ids tagged with it, no tag is empty, and every tagged id is registered |
| ObserverTaskManager.Joined | library/src/main/java/com/shxhzhxx/urlloader/MultiObserverTaskManager.java:67-90 | what `start` does to the registry: the key's task, created when absent, the observer and its id registered, the tag linked; its properties are `JoinedKeepsInv` and `JoinedKeepsTags` |
| ObserverTaskManager.JoinedKeepsInv | library/src/main/java/com/shxhzhxx/urlloader/MultiObserverTaskManager.java:67-90 | start with a fresh id keeps the registry invariant and only extends task logs |
| ObserverTaskManager.DetachedShape | library/src/main/java/com/shxhzhxx/urlloader/MultiObserverTaskManager.java:306-318 | unregistering an id leaves its task with that observer removed, and drops the key exactly when no observer is left |
| ObserverTaskManager.DetachedRecordOk | library/src/main/java/com/shxhzhxx/urlloader/MultiObserverTaskManager.java:306-318 | the record after unregisterObserver keeps its key, loses exactly the id, and is cancelled exactly when no observer is left |
| ObserverTaskManager.Detached | library/src/main/java/com/shxhzhxx/urlloader/MultiObserverTaskManager.java:306-318 | what `unregisterObserver` does: the id and its tag link dropped, the hook logged, and the key dropped and the task cancelled when it was the last observer; its properties are `DetachedShape`, `DetachedEffect` and `DetachedKeepsInv` |
| ObserverTaskManager.DetachedKeepsInv | library/src/main/java/com/shxhzhxx/urlloader/MultiObserverTaskManager.java:306-318 | unregisterObserver keeps the registry invariant |
| ObserverTaskManager.Unregistered | library/src/main/java/com/shxhzhxx/urlloader/MultiObserverTaskManager.java:320-323 | what `unregisterAll` does: the task cleared, then cancelled; its property is `UnregisteredKeepsInv` |
| ObserverTaskManager.UnregisteredKeepsInv | library/src/main/java/com/shxhzhxx/urlloader/MultiObserverTaskManager.java:320-323 | unregisterAll keeps the registry invariant |
| ObserverTaskManager.BegunKeepsInv | library/src/main/java/com/shxhzhxx/urlloader/MultiObserverTaskManager.java:175-178 | the future beginning keeps the registry invariant |
| ObserverTaskManager.RanKeepsInv | library/src/main/java/com/shxhzhxx/urlloader/MultiObserverTaskManager.java:180-191 | run keeps the registry invariant |
| ObserverTaskManager.Delivered | library/src/main/java/com/shxhzhxx/urlloader/MultiObserverTaskManager.java:193-205 | what the posted result does: unless cancelled, the task is cleared and its result runs; its properties are `DeliveredKeepsInv` and `DeliveredSparesNewer` |
| ObserverTaskManager.DeliveredKeepsInv | library/src/main/java/com/shxhzhxx/urlloader/MultiObserverTaskManager.java:193-205 | the posted result keeps the registry invariant |
| ObserverTaskManager.DetachedEffect | library/src/main/java/com/shxhzhxx/urlloader/MultiObserverTaskManager.java:306-318 | the task loses exactly that observer and logs onObserverUnregistered with it, then onCanceled exactly when it was the last; every other task is unchanged |
| ObserverTaskManager.CanceledOnce | library/src/main/java/com/shxhzhxx/urlloader/MultiObserverTaskManager.java:240-244 | after a task is cancelled, no later step logs another onCanceled for it |
| ObserverTaskManager.CanceledNeverRuns | library/src/main/java/com/shxhzhxx/urlloader/MultiObserverTaskManager.java:253-257 | after a task is cancelled, no later step runs its body |
| ObserverTaskManager.DeliveredSparesNewer | library/src/main/java/com/shxhzhxx/urlloader/MultiObserverTaskManager.java:197-199 | a cancelled task's late result does not clear the newer task that now holds its key |
| ObserverTaskManager.CanceledBeforeStartNeverRuns | library/src/main/java/com/shxhzhxx/urlloader/MultiObserverTaskManager.java:253-257 | a task cancelled before the pool began it neither begins nor runs, and never posts a result |
| ObserverTaskManager.NoKeysNoIds | library/src/main/java/com/shxhzhxx/urlloader/MultiObserverTaskManager.java:143-147 | with no key left, no id is registered and no tag remains |
| LibraryTaskManager.Present | library/src/main/java/com/shxhzhxx/library/MultiObserverTaskManager.java:158-163 | the observers as the log records them: the same ids, each with its observer |
| LibraryTaskManager.EmptyInv | library/src/main/java/com/shxhzhxx/library/MultiObserverTaskManager.java:17-35 | the empty registry satisfies the invariant |
| LibraryTaskManager.ReplacedKeepsInv | library/src/main/java/com/shxhzhxx/library/MultiObserverTaskManager.java:111-124 | replacing a task's record without changing its key, observers or liveness keeps the invariant |
| LibraryTaskManager.ClearedReplacedKeepsInv | library/src/main/java/com/shxhzhxx/library/MultiObserverTaskManager.java:234-238 | clearing a live task that is no longer active keeps the invariant |
| LibraryTaskManager.Joined | library/src/main/java/com/shxhzhxx/library/MultiObserverTaskManager.java:37-50 | what `start` does to the registry: the key's task, created when absent, with the observer and its id registered; its property is `JoinedKeepsInv` |
| LibraryTaskManager.JoinedKeepsInv | library/src/main/java/com/shxhzhxx/library/MultiObserverTaskManager.java:37-50 | start with a fresh id keeps the invariant and only extends task logs |
| LibraryTaskManager.CancelOk | library/src/main/java/com/shxhzhxx/library/MultiObserverTaskManager.java:189-199 | cancelling an active task adds exactly one cancellation hook and keeps the task's own invariant |
| LibraryTaskManager.Detached | library/src/main/java/com/shxhzhxx/library/MultiObserverTaskManager.java:245-252 | what `unregisterObserver` does: the id dropped, and the key dropped and the task cancelled when it was the last; its properties are `DetachedEffect` and `DetachedKeepsInv` |
| LibraryTaskManager.DetachedKeepsInv | library/src/main/java/com/shxhzhxx/library/MultiObserverTaskManager.java:245-252 | unregisterObserver keeps the invariant |
| LibraryTaskManager.Unregistered | library/src/main/java/com/shxhzhxx/library/MultiObserverTaskManager.java:254-257 | what `unregisterAll` does: the task cleared, then cancelled; its property is `UnregisteredKeepsInv` |
| LibraryTaskManager.UnregisteredKeepsInv | library/src/main/java/com/shxhzhxx/library/MultiObserverTaskManager.java:254-257 | unregisterAll keeps the invariant |
| LibraryTaskManager.BegunKeepsInv | library/src/main/java/com/shxhzhxx/library/MultiObserverTaskManager.java:132-137 | the guarded start of run keeps the invariant |
| LibraryTaskManager.CompletedKeepsInv | library/src/main/java/com/shxhzhxx/library/MultiObserverTaskManager.java:138-145 | the body and the posting of runResult keep the invariant |
| LibraryTaskManager.Delivered | library/src/main/java/com/shxhzhxx/library/MultiObserverTaskManager.java:147-156 | what `runResult` does: unless cancelled, the task is cleared and the runnable runs; its properties are `DeliveredEffect` and `DeliveredKeepsInv` |
| LibraryTaskManager.DeliveredKeepsInv | library/src/main/java/com/shxhzhxx/library/MultiObserverTaskManager.java:147-156 | the posted result keeps the invariant |
| LibraryTaskManager.DetachedEffect | library/src/main/java/com/shxhzhxx/library/MultiObserverTaskManager.java:245-252 | the task loses exactly that id, is cancelled and loses its key exactly when it was the last observer, and then logs onCanceled if it had started and onCanceledBeforeStart if not; every other task is unchanged |
| LibraryTaskManager.CancelHooks | library/src/main/java/com/shxhzhxx/library/MultiObserverTaskManager.java:189-199 | one cancel adds exactly one hook: onCanceled when the task had started, onCanceledBeforeStart when it had not |
| LibraryTaskManager.CanceledOnce | library/src/main/java/com/shxhzhxx/library/MultiObserverTaskManager.java:189-199 | after a task is cancelled, no later step logs another cancellation hook |
| LibraryTaskManager.CanceledNeverRuns | library/src/main/java/com/shxhzhxx/library/MultiObserverTaskManager.java:209-213 | after a task is cancelled, no later step runs its body |
| LibraryTaskManager.CanceledBeforeStartNeverRuns | library/src/main/java/com/shxhzhxx/library/MultiObserverTaskManager.java:132-137 | a task cancelled before run set its started flag never starts and never runs its body |
| LibraryTaskManager.DeliveredEffect | library/src/main/java/com/shxhzhxx/library/MultiObserverTaskManager.java:147-156 | the posted message clears a task unless it is cancelled, leaves other keys alone, and runs the result runnable (even for a cancelled task) when one was set |
| LibraryTaskManager.ThrewPostsNothing | library/src/main/java/com/shxhzhxx/library/MultiObserverTaskManager.java:138-145 | a body that throws posts no result runnable, so its delivery logs nothing |
| LibraryTaskManager.NoKeysNoIds | library/src/main/java/com/shxhzhxx/library/MultiObserverTaskManager.java:89-93 | with no key left, no id is registered |
| LibraryTaskManager.TaskManager.constructor | library/src/main/java/com/shxhzhxx/library/MultiObserverTaskManager.java:22-35 | both tables start empty and the invariant holds |
| LibraryTaskManager.TaskManager.GetObserverId | library/src/main/java/com/shxhzhxx/library/MultiObserverTaskManager.java:95-99 | returns the lowest non-negative id not registered |
| LibraryTaskManager.TaskManager.IsRunning | library/src/main/java/com/shxhzhxx/library/MultiObserverTaskManager.java:52-55 | true exactly for a non-empty key whose task is live |
| LibraryTaskManager.TaskManager.Start | library/src/main/java/com/shxhzhxx/library/MultiObserverTaskManager.java:37-50 | returns -1 and changes nothing for an empty key, a null observer or a missing builder; otherwise returns the lowest free id, registered with the key's task, and keeps the invariant |
| LibraryTaskManager.TaskManager.RegisterObserver | library/src/main/java/com/shxhzhxx/library/MultiObserverTaskManager.java:240-243 | puts the observer into the task's map and the id into the id table, and nothing else |
| LibraryTaskManager.TaskManager.CancelTask | library/src/main/java/com/shxhzhxx/library/MultiObserverTaskManager.java:189-199 | sets the flag and logs the hook that matches whether the task had started |
| LibraryTaskManager.TaskManager.UnregisterObserver | library/src/main/java/com/shxhzhxx/library/MultiObserverTaskManager.java:245-252 | removes the id, and drops the key and cancels the task when no observer is left; keeps the invariant |
| LibraryTaskManager.TaskManager.Clear | library/src/main/java/com/shxhzhxx/library/MultiObserverTaskManager.java:234-238 | drops the task's key and every one of its ids, keeping its observer map |
| LibraryTaskManager.TaskManager.UnregisterAll | library/src/main/java/com/shxhzhxx/library/MultiObserverTaskManager.java:254-257 | clears the task, then cancels it, keeping the invariant |
| LibraryTaskManager.TaskManager.CancelId | library/src/main/java/com/shxhzhxx/library/MultiObserverTaskManager.java:57-70 | true exactly when the id is registered, and then detaches that one observer; otherwise nothing changes |
| LibraryTaskManager.TaskManager.CancelKey | library/src/main/java/com/shxhzhxx/library/MultiObserverTaskManager.java:72-87 | true exactly for a non-empty registered key, whose task is then unregistered; otherwise nothing changes |
| LibraryTaskManager.TaskManager.CancelAll | library/src/main/java/com/shxhzhxx/library/MultiObserverTaskManager.java:89-93 | the keys of a snapshot are cancelled one by one in its iteration order, the new state being that fold of `cancelEx(key)`; both tables end empty, and every live task, and only those, is cancelled once with nothing else about it changed |
| LibraryTaskManager.CanceledKeysEffect | library/src/main/java/com/shxhzhxx/library/MultiObserverTaskManager.java:89-93 | cancelling a set of registered keys in any order removes exactly those keys, cancels each live task under one of them once, and leaves every other task as it was |
| LibraryTaskManager.TaskManager.Begin | library/src/main/java/com/shxhzhxx/library/MultiObserverTaskManager.java:132-137 | the guarded start of run: a cancelled task stays idle, any other is marked started |
| LibraryTaskManager.TaskManager.Complete | library/src/main/java/com/shxhzhxx/library/MultiObserverTaskManager.java:138-145 | the body ends and the runResult message is posted, with no result runnable when the body threw |
| LibraryTaskManager.TaskManager.RunResult | library/src/main/java/com/shxhzhxx/library/MultiObserverTaskManager.java:147-156 | the posted message, as the Delivered step describes it |
| LibraryTaskManager.TaskManager.GetObservers | library/src/main/java/com/shxhzhxx/library/MultiObserverTaskManager.java:158-163 | returns exactly the set of the task's observers |
| TaskManagerEx.SetCanceledOnce | library/src/main/java/com/shxhzhxx/urlloader/TaskManagerEx.kt:121-130 | the isCanceled setter acts once: the flag is set afterwards, a second set changes nothing, and onCanceled runs only on the flip |
| TaskManagerEx.EmptyInv | library/src/main/java/com/shxhzhxx/urlloader/TaskManagerEx.kt:22-25 | the empty registry satisfies the invariant |
| TaskManagerEx.IdsRemovedStep | library/src/main/java/com/shxhzhxx/urlloader/TaskManagerEx.kt:310-314 | one more removeId round of clear removes one more id from the id and tag tables |
| TaskManagerEx.ReplacedKeepsInv | library/src/main/java/com/shxhzhxx/urlloader/TaskManagerEx.kt:104-160 | replacing a task's record without changing its key, async observers or liveness keeps the invariant |
| TaskManagerEx.ClearedReplacedKeepsInv | library/src/main/java/com/shxhzhxx/urlloader/TaskManagerEx.kt:310-314 | clearing a live task that is no longer active keeps the invariant |
| TaskManagerEx.AsyncJoinedTags | library/src/main/java/com/shxhzhxx/urlloader/TaskManagerEx.kt:70-78 | after asyncStart, each tag maps to the ids tagged with it and every tagged id is registered |
| TaskManagerEx.AsyncJoined | library/src/main/java/com/shxhzhxx/urlloader/TaskManagerEx.kt:58-80 | what `asyncStart` does: the key's task, created when absent, the observer and lowest free id registered, the tag linked; its properties are `AsyncJoinedTags` and `AsyncJoinedKeepsInv` |
| TaskManagerEx.AsyncJoinedKeepsInv | library/src/main/java/com/shxhzhxx/urlloader/TaskManagerEx.kt:58-80 | asyncStart with a fresh id keeps the invariant and only extends task logs |
| TaskManagerEx.SyncJoined | library/src/main/java/com/shxhzhxx/urlloader/TaskManagerEx.kt:82-87 | what `syncStart` does: the caller joins the sync set of the key's task, created when absent; its property is `SyncJoinedKeepsInv` |
| TaskManagerEx.SyncJoinedKeepsInv | library/src/main/java/com/shxhzhxx/urlloader/TaskManagerEx.kt:82-87 | the registration half of syncStart keeps the invariant |
| TaskManagerEx.DetachLog | library/src/main/java/com/shxhzhxx/urlloader/TaskManagerEx.kt:265-275 | removing an async observer logs onCanceled when it was the last observer, then onObserverUnregistered with it, and cancels exactly in that case |
| TaskManagerEx.DetachOk | library/src/main/java/com/shxhzhxx/urlloader/TaskManagerEx.kt:265-275 | the record after unregisterAsyncObserver keeps its key, loses exactly that id, and is cancelled exactly when no observer of either kind is left |
| TaskManagerEx.Unregistered | library/src/main/java/com/shxhzhxx/urlloader/TaskManagerEx.kt:265-275 | what `unregisterAsyncObserver` does: the id and its tag link dropped, the hook logged, and the task cancelled when no observer is left; its properties are `UnregisteredEffect` and `UnregisteredKeepsInv` |
| TaskManagerEx.UnregisteredKeepsInv | library/src/main/java/com/shxhzhxx/urlloader/TaskManagerEx.kt:265-275 | unregisterAsyncObserver keeps the invariant |
| TaskManagerEx.AllUnregistered | library/src/main/java/com/shxhzhxx/urlloader/TaskManagerEx.kt:277-280 | what `unregisterAll` does: the task cleared, then cancelled; its properties are `AllUnregisteredEffect` and `AllUnregisteredKeepsInv` |
| TaskManagerEx.AllUnregisteredKeepsInv | library/src/main/java/com/shxhzhxx/urlloader/TaskManagerEx.kt:277-280 | unregisterAll keeps the invariant |
| TaskManagerEx.CalledKeepsInv | library/src/main/java/com/shxhzhxx/urlloader/TaskManagerEx.kt:162-179 | call keeps the invariant for every outcome of doInBackground |
| TaskManagerEx.Delivered | library/src/main/java/com/shxhzhxx/urlloader/TaskManagerEx.kt:295-304 | what the posted result does: unless cancelled, the task is cleared and its result delivered; its properties are `DeliveredKeepsInv` and `DeliveredSparesNewer` |
| TaskManagerEx.DeliveredKeepsInv | library/src/main/java/com/shxhzhxx/urlloader/TaskManagerEx.kt:295-304 | the posted result keeps the invariant |
| TaskManagerEx.SyncLeft | library/src/main/java/com/shxhzhxx/urlloader/TaskManagerEx.kt:220-235 | what the corrected `syncGet` cleanup does when a caller leaves: the caller removed, and the key dropped, only while it still maps to this task, and the task cancelled when nobody is left; its properties are `SyncLeftKeepsInv` and `SyncLeftCancelsKeepsInv` |
| TaskManagerEx.SyncLeftKeepsInv | library/src/main/java/com/shxhzhxx/urlloader/TaskManagerEx.kt:220-235 | the corrected cleanup of syncGet, which drops the key only while it still maps to this task, keeps the invariant |
| TaskManagerEx.SyncLeftCancelsKeepsInv | library/src/main/java/com/shxhzhxx/urlloader/TaskManagerEx.kt:223-226 | the last caller leaving a task with no async observer cancels it and keeps the invariant |
| TaskManagerEx.SyncCancelLive | library/src/main/java/com/shxhzhxx/urlloader/TaskManagerEx.kt:223-226 | dropping the key of a live task with no async observer and cancelling it keeps the invariant |
| TaskManagerEx.UnregisteredEffect | library/src/main/java/com/shxhzhxx/urlloader/TaskManagerEx.kt:265-275 | the task loses exactly that id, its tag link goes, its log gains onCanceled when it was the last observer and then onObserverUnregistered, and every other task is unchanged |
| TaskManagerEx.AllUnregisteredEffect | library/src/main/java/com/shxhzhxx/urlloader/TaskManagerEx.kt:277-280 | unregisterAll keeps the async observers, empties the callers, cancels once, drops the key and every id of the task |
| TaskManagerEx.CanceledOnce | library/src/main/java/com/shxhzhxx/urlloader/TaskManagerEx.kt:121-130 | after a task is cancelled, no later step logs another onCanceled |
| TaskManagerEx.CanceledNeverRuns | library/src/main/java/com/shxhzhxx/urlloader/TaskManagerEx.kt:238-243 | after a task is cancelled, no later step runs its body |
| TaskManagerEx.ThrewPostsNull | library/src/main/java/com/shxhzhxx/urlloader/TaskManagerEx.kt:173-178 | a body that throws marks the task done and posts no result runnable, so delivering it logs nothing more |
| TaskManagerEx.DeliveredSparesNewer | library/src/main/java/com/shxhzhxx/urlloader/TaskManagerEx.kt:295-304 | a cancelled task's late result leaves the key table alone, sparing the newer task that holds its key |
| TaskManagerEx.NewerScenarioShape | library/src/main/java/com/shxhzhxx/urlloader/TaskManagerEx.kt:82-89 | the scenario of a caller whose task finished while a new async observer started a second task under the same key satisfies the invariant |
| TaskManagerEx.SyncLeftAsWrittenDropsNewer | library/src/main/java/com/shxhzhxx/urlloader/TaskManagerEx.kt:221-226 | with the cleanup as written, the finished task's last caller leaving removes the key of the newer task and breaks the invariant; the corrected cleanup keeps it |
| TaskManagerEx.NoKeysNoIds | library/src/main/java/com/shxhzhxx/urlloader/TaskManagerEx.kt:27-31 | with no key left, no id is registered and no tag remains |
| TaskManagerEx.TaskManager.constructor | library/src/main/java/com/shxhzhxx/urlloader/TaskManagerEx.kt:11-25 | all four tables start empty and the invariant holds |
| TaskManagerEx.TaskManager.IsRunning | library/src/main/java/com/shxhzhxx/urlloader/TaskManagerEx.kt:47 | true exactly for a key whose task is live |
| TaskManagerEx.TaskManager.Attach | library/src/main/java/com/shxhzhxx/urlloader/TaskManagerEx.kt:66-68 | returns the key's task, building one and initialising it asynchronously or synchronously when there is none |
| TaskManagerEx.TaskManager.AsyncStart | library/src/main/java/com/shxhzhxx/urlloader/TaskManagerEx.kt:58-80 | returns the lowest free id, registered with the key's task and linked to its tag, keeping the invariant |
| TaskManagerEx.TaskManager.FreeId | library/src/main/java/com/shxhzhxx/urlloader/TaskManagerEx.kt:59-65 | returns the lowest non-negative id not registered |
| TaskManagerEx.TaskManager.SyncStart | library/src/main/java/com/shxhzhxx/urlloader/TaskManagerEx.kt:82-87 | the caller joins the key's task, which is live afterwards, keeping the invariant |
| TaskManagerEx.TaskManager.RemoveId | library/src/main/java/com/shxhzhxx/urlloader/TaskManagerEx.kt:95-102 | drops the id and its tag link, and the tag once its id set is empty |
| TaskManagerEx.TaskManager.Clear | library/src/main/java/com/shxhzhxx/urlloader/TaskManagerEx.kt:310-314 | drops the key, every id of the task and its tag links, and empties the callers, keeping the async observers |
| TaskManagerEx.TaskManager.SetCanceled | library/src/main/java/com/shxhzhxx/urlloader/TaskManagerEx.kt:121-130 | sets the flag and logs onCanceled unless it was already set |
| TaskManagerEx.TaskManager.UnregisterAsyncObserver | library/src/main/java/com/shxhzhxx/urlloader/TaskManagerEx.kt:265-275 | as the Unregistered step describes it, keeping the invariant |
| TaskManagerEx.TaskManager.UnregisterAll | library/src/main/java/com/shxhzhxx/urlloader/TaskManagerEx.kt:277-280 | clears the task, then cancels it, keeping the invariant |
| TaskManagerEx.TaskManager.Unregister | library/src/main/java/com/shxhzhxx/urlloader/TaskManagerEx.kt:44 | true exactly when the id is registered, and then detaches that one observer; otherwise nothing changes |
| TaskManagerEx.TaskManager.Cancel | library/src/main/java/com/shxhzhxx/urlloader/TaskManagerEx.kt:37 | true exactly when the key has a task, which is then unregistered entirely; otherwise nothing changes |
| TaskManagerEx.TaskManager.UnregisterStep | library/src/main/java/com/shxhzhxx/urlloader/TaskManagerEx.kt:46 | one round of `unregisterByTag` is `unregister(id)` on that id, which removes exactly that id from the id and tag tables |
| TaskManagerEx.TaskManager.UnregisterByTag | library/src/main/java/com/shxhzhxx/urlloader/TaskManagerEx.kt:46 | true exactly when the tag is registered; the ids of a snapshot list of its set are unregistered one by one in the list's order, the new state being that fold of `unregister(id)`, so the tag and each of its ids leave every table; an unknown tag changes nothing |
| TaskManagerEx.TaskManager.CancelAll | library/src/main/java/com/shxhzhxx/urlloader/TaskManagerEx.kt:27-31 | the keys of a snapshot list are cancelled one by one in its order, the new state being that fold of `cancel(key)`; every table ends empty, and every live task, and only those, loses its sync observers and is cancelled with nothing else about it changed |
| TaskManagerEx.UnregisteredIdsEffect | library/src/main/java/com/shxhzhxx/urlloader/TaskManagerEx.kt:46 | unregistering a set of registered ids in any order keeps the invariant and removes exactly those ids from the id table, the id-to-tag table and the tag sets |
| TaskManagerEx.CanceledKeysEffect | library/src/main/java/com/shxhzhxx/urlloader/TaskManagerEx.kt:27-31 | cancelling a set of registered keys in any order removes exactly those keys; each live task under one of them loses its sync observers and is cancelled, and every other task is left as it was |
| TaskManagerEx.UnregisteredTables | library/src/main/java/com/shxhzhxx/urlloader/TaskManagerEx.kt:44 | `unregister(id)` of a registered id removes exactly that id from the id table, the id-to-tag table and its tag's set |
| TaskManagerEx.TaskManager.Call | library/src/main/java/com/shxhzhxx/urlloader/TaskManagerEx.kt:162-179 | a cancelled task returns at once; otherwise the body runs and its result is posted, none being posted when it was interrupted |
| TaskManagerEx.TaskManager.RunResult | library/src/main/java/com/shxhzhxx/urlloader/TaskManagerEx.kt:295-304 | the posted message clears and delivers unless the task is cancelled |
| TaskManagerEx.TaskManager.SyncLeave | library/src/main/java/com/shxhzhxx/urlloader/TaskManagerEx.kt:220-235 | the corrected cleanup when a caller leaves syncGet, keeping the invariant |
| Lru.WithoutLacks | library/src/main/java/com/shxhzhxx/urlloader/FileLruCache.kt:72 | after remove(key) no entry has that key, and removing an absent key changes nothing |
| Lru.WithoutKeepsOthers | library/src/main/java/com/shxhzhxx/urlloader/FileLruCache.kt:72 | remove(key) keeps every other key cached exactly as before |
| Lru.WithoutTotal | library/src/main/java/com/shxhzhxx/urlloader/FileLruCache.kt:117 | removing a key of a table that holds each key once lowers the total by that entry's size |
| Lru.Trim | library/src/main/java/com/shxhzhxx/urlloader/FileLruCache.kt:25 | trimToSize(max) leaves a total within a non-negative max, and trimToSize(-1), which evictAll is, empties the table |
| Lru.TrimSuffix | library/src/main/java/com/shxhzhxx/urlloader/FileLruCache.kt:25 | trimming evicts from the eldest end only: what stays is a suffix of the table |
| Lru.Evicted | library/src/main/java/com/shxhzhxx/urlloader/FileLruCache.kt:129-133 | the evicted entries followed by those that stay make up the table, eldest first |
| Lru.TrimIdempotent | library/src/main/java/com/shxhzhxx/urlloader/FileLruCache.kt:25 | trimming twice to the same bound is trimming once |
| Lru.PutDistinct | library/src/main/java/com/shxhzhxx/urlloader/FileLruCache.kt:82 | put keeps each key in the table once |
| Lru.ReplayIsTrimmedIdeal | app/src/androidTest/java/com/shxhzhxx/app/FileLruCacheTest.kt:101-112 | when every touch names a new key or one still cached that did not shrink, the bounded table is the unbounded access order trimmed to the maximum: the youngest entries that fit |
| Lru.FreshKeysAdmissible | app/src/androidTest/java/com/shxhzhxx/app/FileLruCacheTest.kt:101-103 | touches of distinct keys always meet that condition, and their unbounded access order is their own order |
| Lru.ExpectedSize | app/src/androidTest/java/com/shxhzhxx/app/FileLruCacheTest.kt:114-119 | the size the test expects, summed from the youngest entry until one would pass the bound, is the total trimToSize leaves |
| FileCache.MoveToEnd | library/src/main/java/com/shxhzhxx/urlloader/FileLruCache.kt:37-38 | after remove(name) and init[name] = file the name is the youngest in the working map |
| FileCache.DiskCache.constructor | library/src/main/java/com/shxhzhxx/urlloader/FileLruCache.kt:25 | a new cache holds no entries, has set no modification times and has deleted no files |
| FileCache.DiskCache.TrimToSize | library/src/main/java/com/shxhzhxx/urlloader/FileLruCache.kt:25 | trimToSize drops the eldest entries and deletes their files as entryRemoved does for an eviction |
| FileCache.DiskCache.Put | library/src/main/java/com/shxhzhxx/urlloader/FileLruCache.kt:82 | put moves the entry to the youngest end with its new size, then trims to the maximum, keeping each key once and the total within the maximum |
| FileCache.DiskCache.Remove | library/src/main/java/com/shxhzhxx/urlloader/FileLruCache.kt:72 | remove reports whether the key was cached, drops it and deletes only what entryRemoved deletes for a removal |
| FileCache.DiskCache.EvictAll | library/src/main/java/com/shxhzhxx/urlloader/UrlLoader.kt:64-66 | evictAll empties the table, leaves size 0 and deletes the files of every entry, eldest first |
| FileCache.DiskCache.OnEvent | library/src/main/java/com/shxhzhxx/urlloader/DiskLruCache.java:60-87 | an event whose path is absent or not accepted changes nothing; otherwise each cache's own table of event kinds decides between remove and a put with its current size, stamping the file's modification time for the kinds that cache stamps |
| FileCache.DiskCache.Load | library/src/main/java/com/shxhzhxx/urlloader/DiskLruCache.java:91-104 | start-up puts the accepted listed files into the cache in the order the variant's comparator sorts them: the truncated `(int) (a - b)` one for the urlloader DiskLruCache.java, `Long.compare` for the others |
| FileCache.DiskCache.Drain | library/src/main/java/com/shxhzhxx/urlloader/FileLruCache.kt:35-52 | FileLruCache's working map is the sorted listing followed by every queued path that accept lets through, each moved to the youngest end |
| FileCache.DiskCache.Commit | library/src/main/java/com/shxhzhxx/urlloader/FileLruCache.kt:59-61 | the working map's files are put in order, each with its size at that moment |
| FileCache.DiskCache.ClearCache | library/src/main/java/com/shxhzhxx/urlloader/UrlLoaderCache.kt:18-22 | clearCache deletes the header file in the urlloader cache (the library one does not), removes the data entry, and says yes when the entry was cached or, in the urlloader cache, when the header delete succeeded |
| FileCache.DrainOrder | library/src/main/java/com/shxhzhxx/urlloader/FileLruCache.kt:35-52 | the two loops of the start-up thread leave the working order of the listed names followed by the accepted queued paths |
| FileCache.TrimEntries | library/src/main/java/com/shxhzhxx/urlloader/FileLruCache.kt:25 | the eviction loop leaves the trimmed table and appends the deletions of the evicted entries in eviction order |
| FileCache.DroppedMembers | library/src/main/java/com/shxhzhxx/urlloader/FileLruCache.kt:50 | removing a name from the working map keeps exactly the other names |
| FileCache.WorkingOrderMembers | library/src/main/java/com/shxhzhxx/urlloader/FileLruCache.kt:35-52 | the working map holds exactly the names ever touched |
| FileCache.WorkingOrderUnique | library/src/main/java/com/shxhzhxx/urlloader/FileLruCache.kt:35-52 | the working map holds each name once |
| FileCache.WorkingOrderOfUnique | library/src/main/java/com/shxhzhxx/urlloader/FileLruCache.kt:36-39 | touching distinct names in turn leaves them in that order |
| FileCache.WorkingOrderLast | library/src/main/java/com/shxhzhxx/urlloader/FileLruCache.kt:50-51 | touching a name makes it the youngest and leaves the others in their order |
| FileCache.LastTouchDecides | library/src/main/java/com/shxhzhxx/urlloader/FileLruCache.kt:50-51 | only the last touch of a name decides its place: an earlier touch followed later by another one has no effect |
| FileCache.DrainedShape | library/src/main/java/com/shxhzhxx/urlloader/FileLruCache.kt:35-52 | the sorted listing is already its own working order; after the drain each name is there once, and exactly the listed and the accepted queued names are there |
| FileCache.Startup | library/src/main/java/com/shxhzhxx/urlloader/DiskLruCache.java:91-104 | the entries start-up puts, in the variant's sorted order of the accepted files; its properties are `StartupDistinct` and `LoadKeepsNewest` |
| FileCache.StartupDistinct | library/src/main/java/com/shxhzhxx/urlloader/DiskLruCache.java:91-104 | the start-up entries have distinct names |
| FileCache.PutAllIsReplay | library/src/main/java/com/shxhzhxx/urlloader/FileLruCache.kt:59-61 | putting items into an empty cache one by one leaves the LRU replay of those items |
| FileCache.PutAllKeepsRecent | library/src/main/java/com/shxhzhxx/urlloader/FileLruCache.kt:59-61 | when every put names a new key or a cached one that did not shrink, the table is the ideal access order trimmed to the maximum |
| FileCache.LoadKeepsNewest | library/src/main/java/com/shxhzhxx/urlloader/DiskLruCache.java:91-104 | the start-up listing is a permutation of the accepted files, and it is sorted ascending by modification time for every variant except the urlloader DiskLruCache.java, and for that one too while the times are less than 2^31 ms apart; loading it keeps the youngest files that fit |
| FileCache.TruncatedStartupEvictsNewer | library/src/main/java/com/shxhzhxx/urlloader/DiskLruCache.java:96-104 | with the truncated comparator and room for one file, of two files modified 3e9 ms apart start-up keeps the older one and evicts the newer |
| FileCache.LongStartupKeepsNewer | library/src/main/java/com/shxhzhxx/library/DiskLruCache.java:66-67 | with Long.compare and room for one file, of the same two files start-up keeps the newer one |
| FileCache.CommitKeepsRecent | library/src/main/java/com/shxhzhxx/urlloader/FileLruCache.kt:59-61 | committing a working map of distinct names keeps the youngest names that fit |
| FileCache.RemovedEffect | library/src/main/java/com/shxhzhxx/urlloader/FileLruCache.kt:72 | after remove the key is gone, every other key is cached as before, entries only leave, the total does not grow, no stamp changes, and the deletions appended are entryRemoved's for a removal when the key was cached |
| FileCache.Stored | library/src/main/java/com/shxhzhxx/urlloader/FileLruCache.kt:82 | what `put` does to the disk state: the entry moved to the youngest end, then the eldest evicted and their files unlinked as the class's `entryRemoved` does; its properties are `StoredEffect` and `StoredFitting` |
| FileCache.StoredEffect | library/src/main/java/com/shxhzhxx/urlloader/FileLruCache.kt:82 | after put each key appears once within the maximum, no stamp changes, the evicted entries and the new table make up the touched table, their files are deleted in eviction order; an entry that fits becomes the youngest and evicts only other keys, and one larger than the maximum empties the table |
| FileCache.StoredFitting | library/src/main/java/com/shxhzhxx/urlloader/FileLruCache.kt:82 | an entry within the maximum is the youngest after put, and every evicted entry was cached under a different key |
| FileCache.LibraryDeletesOnEviction | library/src/main/java/com/shxhzhxx/library/DiskLruCache.java:124-128 | the library cache deletes nothing on a remove and deletes an evicted entry's own file |
| FileCache.DispatchTables | library/src/main/java/com/shxhzhxx/library/DiskLruCache.java:45-61 | the library cache drops an entry only on OPEN and stamps only on CLOSE_NOWRITE; the other caches drop on MOVED_FROM and DELETE; the urlloader Java cache stamps on OPEN and CLOSE_NOWRITE, and the two Kotlin caches stamp on every put |
| FileCache.IgnoredEvent | library/src/main/java/com/shxhzhxx/urlloader/DiskLruCache.java:61-62 | an event without a path, or whose path accept refuses, leaves the cache as it was |
| Listing.LongCompare | library/src/main/java/com/shxhzhxx/library/DiskLruCache.java:67 | Long.compare is negative, zero or positive exactly as the first argument is below, equal to or above the second |
| Listing.TruncatedCompare | library/src/main/java/com/shxhzhxx/urlloader/DiskLruCache.java:96-101 | the int-cast difference is the true difference whenever that fits in 32 bits |
| Listing.InsertPerm | library/src/main/java/com/shxhzhxx/library/DiskLruCache.java:67 | inserting into a sorted list adds exactly the one file |
| Listing.SortPerm | library/src/main/java/com/shxhzhxx/library/DiskLruCache.java:67 | the sort is a permutation of the listing, whatever the comparator |
| Listing.ChainUp | library/src/main/java/com/shxhzhxx/library/DiskLruCache.java:67 | in a list sorted pairwise each file was modified no later than every file after it |
| Listing.InsertAdjacent | library/src/main/java/com/shxhzhxx/library/DiskLruCache.java:67 | inserting with Long.compare into a list sorted by modification time keeps it sorted |
| Listing.ByModificationSorts | library/src/main/java/com/shxhzhxx/library/DiskLruCache.java:66-67 | sorting by modification time gives the accepted files, the same multiset, oldest first |
| Listing.TruncatedCompareMisorders | library/src/main/java/com/shxhzhxx/urlloader/DiskLruCache.java:96-101 | for two files modified 3e9 ms (about 35 days) apart the truncated comparator says the newer one is the smaller, both ways round, so the sort puts the newer first whatever the input order and the listing is not ascending, while sorting by modification time puts the older first |
| Listing.SortAgree | library/src/main/java/com/shxhzhxx/urlloader/DiskLruCache.java:96-101 | two comparators that agree on every pair of the listing sort it alike |
| Listing.TruncatedSortsWhenClose | library/src/main/java/com/shxhzhxx/urlloader/DiskLruCache.java:96-101 | while every two modification times are less than 2^31 ms apart, the truncated comparator sorts the listing exactly as sorting by modification time does, ascending |
| Listing.Accepted | library/src/main/java/com/shxhzhxx/urlloader/DiskLruCache.java:91 | listFiles(this) keeps exactly the files accept lets through |
| Listing.AcceptedUnique | library/src/main/java/com/shxhzhxx/urlloader/DiskLruCache.java:91 | the accepted files of a listing with distinct names have distinct names |
| Listing.SortUnique | library/src/main/java/com/shxhzhxx/library/DiskLruCache.java:67 | sorting keeps names distinct |
| UrlLoaderJava.Cut | library/src/main/java/com/shxhzhxx/library/UrlLoader.java:115-121 | the cut point is the first '?' or '#', or the end: nothing before it is either character |
| UrlLoaderJava.Strip | library/src/main/java/com/shxhzhxx/library/UrlLoader.java:122 | removing every backslash leaves exactly the characters other than the backslash |
| UrlLoaderJava.StripAbsent | library/src/main/java/com/shxhzhxx/library/UrlLoader.java:122 | removing a character that does not occur changes nothing |
| UrlLoaderJava.RawUrlClean | library/src/main/java/com/shxhzhxx/library/UrlLoader.java:110-123 | the raw url keeps exactly the characters before the first '?' or '#' other than backslashes, holds no '?', '#' or backslash, and a second rawUrl changes nothing |
| UrlLoaderJava.FreshByMtime | library/src/main/java/com/shxhzhxx/library/UrlLoader.java:426-430 | the corrected freshness test: fresh exactly while fewer than max-age seconds have passed since the header file was written |
| UrlLoaderJava.FreshAgreesBelowOverflow | library/src/main/java/com/shxhzhxx/library/UrlLoader.java:427 | the test as written and the corrected one agree while max-age in milliseconds fits an int |
| UrlLoaderJava.MaxAgeOverflow | library/src/main/java/com/shxhzhxx/urlloader/UrlLoader.java:286 | with max-age 30 days the int multiplication wraps: as written a copy written one second ago is stale, corrected it is fresh |
| UrlLoaderJava.RewriteTakesCacheControl | library/src/main/java/com/shxhzhxx/library/UrlLoader.java:456-465 | the corrected header rewrite happens exactly when the response carries Cache-Control, takes that value, and keeps every other stored field |
| UrlLoaderJava.RewriteDropsNewCacheControl | library/src/main/java/com/shxhzhxx/urlloader/UrlLoader.java:316-324 | as written, the rewritten header file keeps the stored Cache-Control and drops the response's; corrected, it holds the response's |
| UrlLoaderJava.HeaderRewriteShape | library/src/main/java/com/shxhzhxx/library/UrlLoader.java:456-465 | for both versions the header file is rewritten exactly when the response carries Cache-Control; as written the rewritten file is the stored header list unchanged |
| UrlLoaderJava.Download | library/src/main/java/com/shxhzhxx/library/UrlLoader.java:491-521 | the Java `download`: a reset, one request without conditions, the response's headers written and the body read from offset 0; its properties are `DownloadShape` and `DownloadStopsEarly` |
| UrlLoaderJava.DownloadShape | library/src/main/java/com/shxhzhxx/library/UrlLoader.java:491-521 | download always resets, writes only the response's own headers, and reads the body from offset 0 exactly when the reset, the request and the header write succeed with a 2xx while not cancelled |
| UrlLoaderJava.DownloadStopsEarly | library/src/main/java/com/shxhzhxx/urlloader/UrlLoader.java:368-375 | a cancelled task or a non-2xx response ends the download with false and nothing written |
| UrlLoaderJava.ResumeShape | library/src/main/java/com/shxhzhxx/library/UrlLoader.java:523-567 | a resume never serves the cached file and never throws |
| UrlLoaderJava.Resume | library/src/main/java/com/shxhzhxx/library/UrlLoader.java:523-559 | the Java resume branch, per version: the Range request, a 206 appending, anything else a full download; its properties are `ResumeShape` and `ResumeRequest` |
| UrlLoaderJava.ResumeRequest | library/src/main/java/com/shxhzhxx/library/UrlLoader.java:523-559 | for the code as written and for the corrected rewrite alike: a resume needs Accept-Ranges: bytes and a validator (ETag first), else downloads; it asks bytes=len- under If-Range, and a 206 appends the body at len, rewriting the header file exactly when the response has Cache-Control, as written with the stored headers unchanged |
| UrlLoaderJava.RevalidateShape | library/src/main/java/com/shxhzhxx/library/UrlLoader.java:431-475 | a revalidation serves the cached file only after a request, and never throws |
| UrlLoaderJava.Revalidate | library/src/main/java/com/shxhzhxx/library/UrlLoader.java:431-475 | the Java conditional request, per version: a 304 keeps the copy and rewrites the header file, a 2xx replaces it; its properties are `RevalidateShape` and `RevalidateRequest` |
| UrlLoaderJava.RevalidateRequest | library/src/main/java/com/shxhzhxx/library/UrlLoader.java:431-475 | for the code as written and for the corrected rewrite alike: revalidation sends If-Modified-Since then If-None-Match for the stored validators, downloads with neither, keeps the data on 304 and rewrites the header file exactly when the response has Cache-Control (as written with the stored headers unchanged), and is false on no response or a non-2xx other than 304 |
| UrlLoaderJava.MainFunc | library/src/main/java/com/shxhzhxx/library/UrlLoader.java:401-434 | the Java `mainFunc`, per version: download, resume, serve or revalidate by the stored files and freshness; its properties are `MainFuncRoutes`, `ServedWithoutRequest` and `AsWrittenRevalidatesFreshCopy` |
| UrlLoaderJava.MainFuncRoutes | library/src/main/java/com/shxhzhxx/library/UrlLoader.java:401-434 | for the code as written and corrected alike: mainFunc downloads when a file is missing, the header file is unreadable or Content-Length is bad, resumes when the length differs, and revalidates a complete copy that the version's freshness test calls stale; it never throws |
| UrlLoaderJava.ServedWithoutRequest | library/src/main/java/com/shxhzhxx/library/UrlLoader.java:401-430 | for the code as written and corrected alike: mainFunc answers true with no request exactly for a complete copy that the version's freshness test calls fresh |
| UrlLoaderJava.AsWrittenRevalidatesFreshCopy | library/src/main/java/com/shxhzhxx/library/UrlLoader.java:426-430 | with max-age 30 days and a header file written one second ago, mainFunc as written sends a request, while the corrected test serves the copy with none |
| UrlLoaderJava.CheckDownload | library/src/main/java/com/shxhzhxx/library/UrlLoader.java:242-273 | the Java `checkDownload`, per version; its property is `CheckDownloadAgreesWithMainFunc` |
| UrlLoaderJava.CheckDownloadAgreesWithMainFunc | library/src/main/java/com/shxhzhxx/library/UrlLoader.java:242-273 | for the code as written and corrected alike: checkDownload is true exactly when the url is set, no task runs, and mainFunc would answer true offline |
| UrlLoaderJava.DeleteCacheFiles | library/src/main/java/com/shxhzhxx/library/UrlLoader.java:227-232 | false while running; otherwise true exactly when each existing file deletes, and the data file is deleted only after the header file |
| UrlLoaderJava.BufferLen | library/src/main/java/com/shxhzhxx/library/UrlLoader.java:585-587 | 512 for an unknown length, else a fifth of the body plus one, capped at 8192 |
| UrlLoaderJava.CancelPoint | library/src/main/java/com/shxhzhxx/library/UrlLoader.java:595-598 | the first read at which the task is found cancelled, or the number of reads |
| UrlLoaderJava.WorkThread.constructor | library/src/main/java/com/shxhzhxx/urlloader/UrlLoader.java:170-175 | a worker whose data file holds the given bytes |
| UrlLoaderJava.WorkThread.ReadBody | library/src/main/java/com/shxhzhxx/library/UrlLoader.java:581-618 | announces the total length, appends every chunk until the stream ends or the task is found cancelled, keeps the downloaded count equal to the file length, and is true exactly when it read to the end |
| UrlLoaderJava.FreshCopySucceedsOffline | library/src/main/java/com/shxhzhxx/library/UrlLoader.java:315-322 | for the code as written and corrected alike: a copy that is complete and fresh by the version's test succeeds without a request exactly when the data file is read-only or can be made so |
| UrlLoaderJava.RepliesStep | library/src/main/java/com/shxhzhxx/library/UrlLoader.java:333-343 | one more observer handled adds exactly its own call |
| UrlLoaderJava.Deliver | library/src/main/java/com/shxhzhxx/library/UrlLoader.java:324-364 | every observer gets onCanceled when the task is cancelled, its own notice after success, and onFailed after failure |
| UrlLoaderJava.NoticeFailsOnlyOnCopy | library/src/main/java/com/shxhzhxx/library/UrlLoader.java:333-343 | after success an observer fails exactly when the data file is gone, or its target differs and the copy fails; the others complete with their own target |
| UrlLoaderJava.CanceledRepliesCancel | library/src/main/java/com/shxhzhxx/library/UrlLoader.java:328-331 | a cancelled task gives every observer onCanceled |
| UrlLoaderJava.LoadEx | library/src/main/java/com/shxhzhxx/library/UrlLoader.java:210-225 | -1 with nothing started for an empty url; otherwise the observer, or a default one, aimed at the output or the data cache file, joins the key's task under the lowest free id, the registry step being `start` with that id |
| UrlLoaderJava.DefaultTargetCompletes | library/src/main/java/com/shxhzhxx/library/UrlLoader.java:218 | an observer aimed at the data cache needs no copy and completes whenever the file exists |
| UrlLoaderJava.StartLoad | library/src/main/java/com/shxhzhxx/urlloader/UrlLoader.java:88-99 | the observer is failed at once exactly when start gives -1; an empty url changes nothing; otherwise the observer joins the key's task under its tag with the lowest free id, the registry step being `start` with that id |
| UrlLoaderJava.Broadcast | library/src/main/java/com/shxhzhxx/urlloader/UrlLoader.java:177-183 | every non-null observer is called, in order, and no other |
| UrlLoaderJava.UnregisteredCalls | library/src/main/java/com/shxhzhxx/urlloader/UrlLoader.java:185-189 | only the unregistered observer is told, when it is not null |
| HttpHeaders.GetIsLast | library/src/main/java/com/shxhzhxx/urlloader/UrlLoader.kt:272-273 | a header lookup finds a value exactly when some field has the name, ignoring ASCII case, and then it is the value of the last such field |
| HttpHeaders.GetFolds | library/src/main/java/com/shxhzhxx/urlloader/UrlLoader.kt:272-273 | names that differ only in ASCII case look up the same value |
| HttpHeaders.GetSet | library/src/main/java/com/shxhzhxx/urlloader/UrlLoader.kt:276-281 | after set(n, v), n reads v and every other name reads what it read before |
| HttpHeaders.MergeGet | library/src/main/java/com/shxhzhxx/urlloader/UrlLoader.kt:277-281 | merge takes Cache-Control, ETag and Last-Modified from the response where the response has them, and every other stored field reads as before |
| HttpHeaders.ToInt64 | library/src/main/java/com/shxhzhxx/urlloader/UrlLoader.kt:285 | the JVM long sum wraps into the 64-bit range and leaves an in-range value alone |
| HttpHeaders.ParseLong | library/src/main/java/com/shxhzhxx/urlloader/UrlLoader.kt:284 | toLong yields a value only within the 64-bit range |
| HttpHeaders.ParseDecimal | library/src/main/java/com/shxhzhxx/urlloader/UrlLoader.kt:276-284 | the epoch seconds written with toString read back with toLong as the same number |
| HttpHeaders.StampedStamp | library/src/main/java/com/shxhzhxx/urlloader/UrlLoader.kt:276 | updateLastChecked stamps UrlLoader-Last-Checked with the current epoch seconds |
| HttpHeaders.StampedFresh | library/src/main/java/com/shxhzhxx/urlloader/UrlLoader.kt:276-286 | headers stamped at time w are fresh at time t exactly when t/1000 < w/1000 + maxAge, for any max-age in Int range |
| HttpHeaders.UnstampedStale | library/src/main/java/com/shxhzhxx/urlloader/UrlLoader.kt:283-284 | headers without a Last-Checked stamp are never fresh |
| Loading.TotalLen | library/src/main/java/com/shxhzhxx/urlloader/UrlLoader.kt:97-98 | the announced total is -1 exactly for an unknown content length, and otherwise the content length plus the bytes already on disk |
| Loading.FirstEmpty | library/src/main/java/com/shxhzhxx/urlloader/UrlLoader.kt:114-117 | the read loop stops at the first empty read: every earlier read is non-empty |
| Loading.TruncDiv | library/src/main/java/com/shxhzhxx/urlloader/UrlLoader.kt:100 | JVM division: the Euclidean quotient for a non-negative dividend |
| Loading.TruncDivOdd | library/src/main/java/com/shxhzhxx/urlloader/UrlLoader.kt:100 | JVM division rounds toward zero, so negating the dividend negates the quotient |
| Loading.PresentMembers | library/src/main/java/com/shxhzhxx/urlloader/UrlLoader.kt:237-247 | the it?. loops over observers call every non-null observer and only those |
| Loading.PresentSnoc | library/src/main/java/com/shxhzhxx/urlloader/UrlLoader.kt:237-247 | the observers called grow one slot at a time, in slot order |
| Loading.ClearCacheUnlessRunning | library/src/main/java/com/shxhzhxx/urlloader/UrlLoader.kt:74 | clearCache(url) is false and changes nothing while the url's task runs, and otherwise is the cache's own clearCache of the url's MD5 name |
| UrlLoaderKt.Download | library/src/main/java/com/shxhzhxx/urlloader/UrlLoader.kt:149-160 | the Kotlin full download: both files reset, stamped headers written, the body read; its properties are `DownloadShape` and `DownloadStamps` |
| UrlLoaderKt.DownloadShape | library/src/main/java/com/shxhzhxx/urlloader/UrlLoader.kt:149-160 | a full download always resets both files, sends the url with no extra request field (or no request when the reset fails), and reads a body from offset 0 exactly when the reset succeeds, the request gets a 2xx answer and the header file is written |
| UrlLoaderKt.SyncLoad | library/src/main/java/com/shxhzhxx/urlloader/UrlLoader.kt:162-202 | the Kotlin `syncLoad`: routed by the files, the headers, the Content-Length comparison and the stamp; its properties are `SyncLoadRoutes`, `ServedWithoutRequest` and `RaisesOnBadStamp` |
| UrlLoaderKt.SyncLoadRoutes | library/src/main/java/com/shxhzhxx/urlloader/UrlLoader.kt:162-202 | a missing file, unreadable headers, a missing or unparseable Content-Length or a data file longer than it lead to a full download; a shorter data file leads to a range resume; a complete copy that is stale leads to revalidation |
| UrlLoaderKt.ServedWithoutRequest | library/src/main/java/com/shxhzhxx/urlloader/UrlLoader.kt:162-202 | the cached file is handed back with no request, no reset and no write exactly when the copy is complete and fresh |
| UrlLoaderKt.RaisesOnBadStamp | library/src/main/java/com/shxhzhxx/urlloader/UrlLoader.kt:190-202 | the load throws out of syncLoad exactly when the copy is complete and its Last-Checked stamp does not parse as a long |
| UrlLoaderKt.ResumeShape | library/src/main/java/com/shxhzhxx/urlloader/UrlLoader.kt:166-188 | a resume never serves the cached file without a body and never throws |
| UrlLoaderKt.RevalidateShape | library/src/main/java/com/shxhzhxx/urlloader/UrlLoader.kt:203-221 | revalidation never hands back the cached file without asking the server, and never throws |
| UrlLoaderKt.Resume | library/src/main/java/com/shxhzhxx/urlloader/UrlLoader.kt:166-188 | the Kotlin resume branch: the Range request, a 206 appending, anything else a full download; its properties are `ResumeShape` and `ResumeRequest` |
| UrlLoaderKt.ResumeRequest | library/src/main/java/com/shxhzhxx/urlloader/UrlLoader.kt:166-188 | without Accept-Ranges: bytes or a validator the resume is a full download; otherwise it asks for the range bytes=len- with If-Range set to the ETag (else Last-Modified), and on 206 keeps the files, writes the merged headers stamped now and appends the body at len |
| UrlLoaderKt.Revalidate | library/src/main/java/com/shxhzhxx/urlloader/UrlLoader.kt:203-221 | the Kotlin conditional request: a 304 merges the headers and keeps the copy, anything else a download; its properties are `RevalidateShape`, `RevalidateRequest` and `NotModifiedMerges` |
| UrlLoaderKt.RevalidateRequest | library/src/main/java/com/shxhzhxx/urlloader/UrlLoader.kt:203-221 | the conditional request is If-None-Match with the ETag, else If-Modified-Since with Last-Modified, else a full download; a 304 serves the cached file after writing the merged and stamped headers, without a reset; no answer or a non-2xx, non-304 answer ends with no file and no write |
| UrlLoaderKt.BodyOnlyFromSuccess | library/src/main/java/com/shxhzhxx/urlloader/UrlLoader.kt:141-221 | a body is read only from a 2xx answer whose headers were written; a body after a reset is read from offset 0, and one without a reset comes from a 206 answer to a range request at the stored length and is appended there |
| UrlLoaderKt.DownloadStamps | library/src/main/java/com/shxhzhxx/urlloader/UrlLoader.kt:149-160 | whatever a full download writes to the header file carries the current epoch seconds as its Last-Checked stamp |
| UrlLoaderKt.ReplyStamps | library/src/main/java/com/shxhzhxx/urlloader/UrlLoader.kt:276-294 | the headers written from a reply, merged or not, read back the current epoch seconds as their Last-Checked stamp |
| UrlLoaderKt.WrittenIsStamped | library/src/main/java/com/shxhzhxx/urlloader/UrlLoader.kt:141-221 | every header file any load writes carries the current epoch seconds as its stamp |
| UrlLoaderKt.NotModifiedMerges | library/src/main/java/com/shxhzhxx/urlloader/UrlLoader.kt:210-214 | after a 304, every field other than the stamp reads as the reply's Cache-Control, ETag or Last-Modified where the reply has that field, and as the stored value otherwise |
| UrlLoaderKt.CheckDownload | library/src/main/java/com/shxhzhxx/urlloader/UrlLoader.kt:47-62 | the Kotlin `checkDownload`; its properties are `CheckDownloadAgreesWithLoad` and `CheckDownloadIgnoringAge` |
| UrlLoaderKt.CheckDownloadAgreesWithLoad | library/src/main/java/com/shxhzhxx/urlloader/UrlLoader.kt:47-62 | checkDownload with the age check says yes exactly when no task runs for the url and a load would hand back the cached file without any request |
| UrlLoaderKt.CheckDownloadIgnoringAge | library/src/main/java/com/shxhzhxx/urlloader/UrlLoader.kt:47-62 | checkDownload without the age check says yes exactly when no task runs and both files exist, the headers read back and their Content-Length equals the data length |
| UrlLoaderKt.Median | library/src/main/java/com/shxhzhxx/urlloader/UrlLoader.kt:100 | the middle element of the sorted three-element array: one of the three, with at least two of them not above it and at least two not below it |
| UrlLoaderKt.BufferLen | library/src/main/java/com/shxhzhxx/urlloader/UrlLoader.kt:97-101 | the read buffer is between 512 bytes and 50 KiB |
| UrlLoaderKt.BufferLenClamps | library/src/main/java/com/shxhzhxx/urlloader/UrlLoader.kt:97-101 | the buffer is the truncated Int quotient of the content length by 20, clamped to [512, 51200]; an unknown length gives 512, and a length between 20 times the bounds gives exactly its twentieth |
| UrlLoaderKt.RisingSnoc | library/src/main/java/com/shxhzhxx/urlloader/UrlLoader.kt:119-130 | appending a progress report that announces the same total, starts at or after the initial length and does not go back keeps the reports rising |
| UrlLoaderKt.ReadBody | library/src/main/java/com/shxhzhxx/urlloader/UrlLoader.kt:96-139 | the data file becomes the old bytes followed by every chunk before the first empty read; without a callback nothing is reported; with one the last report's current is the full new length; all reports announce the same total (-1 or the body plus initLen) and never go below initLen or backwards |
| UrlLoaderKt.WorkerChoosesResult | library/src/main/java/com/shxhzhxx/urlloader/UrlLoader.kt:225-244 | onComplete is posted exactly when the task was not cancelled, the load gave a file and that file is or becomes read-only; nothing is posted exactly when cancelled or the load threw; the task fails with an exception exactly when not cancelled and the load threw |
| UrlLoaderKt.CanceledCalls | library/src/main/java/com/shxhzhxx/urlloader/UrlLoader.kt:246-248 | onCanceled reaches every non-null observer and nobody else |

## Left out

- Concurrency is not modelled:
  - the thread pools, futures and interrupts;
  - `Handler.post` delivery;
  - the `FileObserver` thread and its queue timeouts;
  - the init lock of the urlloader `DiskLruCache.java`;
  - the waiting and retry loop of `syncGet`;
  - `@Volatile` flags.

  Instead, each public call, each processed file event and each environment
  step (a background run, a delivery, a sync caller leaving) is one atomic
  step.
- Task objects are records in a registry table, addressed by their index. Object identity and aliasing of task references are not modelled beyond that.
- User hooks (`doInBackground`, `onCanceled`, `onObserverUnregistered`, `onCanceledBeforeStart`, posted results) are recorded in a log, not run. Re-entrant calls from a hook into the registry are not modelled.
- A null key or tag string is modelled as the empty string. Every guard in the source treats the two alike (`TextUtils.isEmpty`).
- `setMaximumPoolSize`, `release`, `finalize` and `resizeCache` are not modelled. They only configure threads or stop watching.
- The MD5 algorithm is not modelled. The 16-byte digest is an input, and only its hex spellings are modelled.
- `android.util.LruCache` is not part of this model. Its contract is stated here the way the disk caches and their instrumentation tests rely on it:
  - put moves an entry to the youngest end;
  - the trim evicts the eldest entries;
  - `entryRemoved` fires for entries that leave without a replacement.
- The filesystem is not modelled; the directory is the listing the cache receives. In particular:
  - whether a name is a file, its length and its modification time come with each listing or event;
  - the deletions and `setLastModified` calls the caches make are recorded;
  - whether `setWritable`/`copyFile` succeeds is a boolean input;
  - so FileLruCacheTest's comparison of `size()` with the on-disk total is not stated.
- The OkHttp transport is not modelled. The loader gets the answer to its one request as an input, `None` covering both the invalid URL and the I/O error, which the source handles alike.
- The text format of the header file is left out: how OkHttp's `Headers` print and `readHeaders` parse lines, skipping malformed ones. A header file is either the parsed header list or unreadable.
- `CacheControl.parse(...).maxAgeSeconds()` is an input (-1 when absent). The Cache-Control grammar is not modelled.
- Header names are compared with ASCII case folding only. Case folding of non-ASCII letters is not modelled.
- `HttpHeaders.ParseLong`: accepts ASCII digits only, while `Long.parseLong` also accepts other Unicode decimal digits.
- An `IOException` thrown inside a read loop is left out. The loops model a stream that ends.
- `bodyOk` of a load is an input saying whether the body read completed. The load itself does not connect to `ReadBody`'s outcome.
- The progress reports of the Kotlin `readBody` are left out in two respects:
  - the clock is modelled as a function of the read count;
  - the 100 ms window is only the condition on that clock.

  Also left out: the Java loaders' progress speed sampler on a `ScheduledExecutorService`, the `onProgress` delivery, and the `mBytePerSec` field.
- `UrlLoaderKt.Speed`: models the `Int` wrap of `delta * 1000` but not the wrap of `delta` itself past 2^31 bytes within one window.
- `Loading.Load.written` is the header list a load tries to write. A failed write leaves the load without a body (`NoFile`), but the written value is not erased.
- `UrlLoaderJava.Strip`: states which characters remain, not that their order is kept.
- The Kotlin `load` wrapper, `getHeaderCache`/`getDataCache`, `cacheSize` and `md5` are left out. They only forward to the registry and the cache, whose operations are modelled.
- Not modelled: `MOTM.kt` and `UrlLoaderEx.kt` (unfinished drafts), `UrlLoaderCacheEx.kt` (empty), `Test.java`, `FileUtils.java`, the `MainActivity` and `DownloadManager` classes, and `JavaInheritance.java`. None of them is used by the library's core.
- `UrlLoaderJava.Deliver`: an observer is modelled as a value pairing it with its output file, so one observer loaded twice with two outputs counts twice. In the source a `ProgressObserver` has one mutable `mFile` that each `load` overwrites (library/src/main/java/com/shxhzhxx/library/UrlLoader.java:218), and the task's observer set holds it once, so it is delivered once, to its last output. The two agree whenever each observer is loaded with a single output.
- `FileCache.DiskCache.OnEvent`, `FileCache.DiskCache.Load` and `FileCache.DiskCache.Commit` take each file's size as a `nat`. The source narrows `file.length()` to an int in every `sizeOf(File)` (FileLruCache.kt:114, DiskLruCache.kt:75, UrlLoaderCache.kt:10, and the two `DiskLruCache.java` files and the library `UrlLoaderCache.java`). So a file of 2^31 bytes or more would get a wrapped, possibly negative size; such files are not modelled. Neither is the int overflow of `LruCache`'s running total.
- `FileCache.Sorted`: for the urlloader `DiskLruCache.java`, the start-up order is the model's stable insertion sort under the truncated comparator. `Arrays.sort` (TimSort) gives the same order whenever the comparator is consistent on the listing, as `Listing.TruncatedSortsWhenClose` shows for times less than 2^31 ms apart. Otherwise TimSort's order, or its "Comparison method violates its general contract" exception, is not modelled.
- The order in which a loop visits a snapshot `HashSet` or list (`cancelByTag`, `cancelAll`, `cancelAllEx`, `unregisterByTag`) is left open. It is a ghost out-parameter that may be any order of the snapshot's elements, and every property is proved for all of them.
- `UrlLoaderKt.WorkerRun`: `UrlLoader.kt` extends `TaskManager<Callback>` (UrlLoader.kt:25), and `TaskManager` is not part of this model. The worker's outcome is therefore stated with `TaskManagerEx.Outcome` in its place.
- The library `UrlLoaderCache.onDelete` overrides a method that the library `DiskLruCache` never calls. Its pairing is modelled on its own, and library evictions delete only the entry's own file (`FileCache.LibraryDeletesOnEviction`).

## Findings

| source | as written | input that shows it | evidently intended | confidence | as-written member | corrected member |
|---|---|---|---|---|---|---|
| library/src/main/java/com/shxhzhxx/urlloader/TaskManagerEx.kt:221-226 | when the last sync caller leaves a task with no async observer, `keyTaskMap.remove(key)` runs whatever task the key now maps to | a sync task finishes and is delivered; an async caller starts a new task under the same key; then the first sync caller leaves, which removes the new task's key while its id stays registered | remove the key only while it still maps to the leaving task | not executed | TaskManagerEx.SyncLeftAsWrittenDropsNewer | TaskManagerEx.SyncLeftKeepsInv |
| library/src/main/java/com/shxhzhxx/urlloader/DiskLruCache.java:96-101 | the start-up sort compares modification times with `(int) (a - b)` | two files modified 3e9 ms (about 35 days) apart: the difference, cast to an int, has the wrong sign both ways round, so the newer file sorts first and is evicted first (`FileCache.TruncatedStartupEvictsNewer`) | `Long.compare`, as the library `DiskLruCache` does | not executed | Listing.TruncatedCompareMisorders | Listing.ByModificationSorts |
| library/src/main/java/com/shxhzhxx/library/UrlLoader.java:457-465 | on a 304 with a Cache-Control, `headers.newBuilder().set(...)` builds a new header list that is dropped, and the old headers are written back; the 206 branches of both Java loaders do the same | stored `Cache-Control: max-age=0`, answered by a 304 with `max-age=600`: the header file keeps `max-age=0`, so every later load revalidates again | write the stored headers with the response's Cache-Control set | not executed | UrlLoaderJava.RewriteDropsNewCacheControl | UrlLoaderJava.RewriteTakesCacheControl |
| library/src/main/java/com/shxhzhxx/library/UrlLoader.java:427 | freshness is `now < lastModified + maxAgeSeconds() * 1000`, and the product of two ints wraps before it is widened | `max-age=2592000` (30 days): the product wraps to -1702967296, so a header file written one second ago is already stale | compute the product in long arithmetic | not executed | UrlLoaderJava.MaxAgeOverflow | UrlLoaderJava.FreshByMtime |
