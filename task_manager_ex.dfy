/**
 * The Kotlin registry of the urlloader package (urlloader/TaskManagerEx.kt):
 * tasks keyed by any value, joined asynchronously by observers that receive
 * the lowest free id (optionally grouped by a tag) or synchronously by
 * callers that wait for the result, unregistered one by one, by tag, by key
 * or all at once, and cancelled by a setter that acts only once.
 *
 * Every public call holds the registry's monitor, so it is one atomic step.
 * The Task objects are records in the registry's `tasks` table, addressed by
 * their index. The futures are reduced to whether they exist; the thread
 * pool, the waiting loop of `syncGet` and the main-thread handler are the
 * environment, which performs the steps `Call`, `RunResult` and `SyncLeave`.
 */
module TaskManagerEx {
  import opened Common
  import opened Tags
  import opened Hooks

  /** How `doInBackground` ended: normally (with `postResult` set or not), interrupted, or by another exception. */
  datatype Outcome = Finished(setPostResult: bool) | Interrupted | Threw

  /**
   * A `Task`: its key, `asyncObserverMap`, `syncObservers` (a set),
   * `isCanceled`, whether `asyncFuture` and `syncFuture` are set,
   * `isTaskDone`, the posted `runResult` message (Some(true) with a result
   * runnable, Some(false) with null) and the hook log.
   */
  datatype Task<T(==)> = Task(
    key: string,
    async: map<int, Option<T>>,
    sync: set<Option<T>>,
    canceled: bool,
    asyncFuture: bool,
    syncFuture: bool,
    done: bool,
    posted: Option<bool>,
    log: seq<Callback<T>>)
  {
    /** The `isCanceled` setter given true: only the first call cancels the futures and runs `onCanceled`. */
    function SetCanceled(): Task<T> {
      if canceled then this else this.(canceled := true, log := log + [Canceled])
    }

    /** `observers` is not empty. */
    predicate HasObservers() {
      |async| > 0 || |sync| > 0
    }

    /** Removing async observer id leaves the task with no observer of either kind. */
    predicate LastLeaves(id: int) {
      |async - {id}| == 0 && |sync| == 0
    }

    /** Task.`unregisterAsyncObserver` on the record: remove the observer, cancel if none is left, then report it. */
    function Detach(id: int): Task<T>
      requires id in async
    {
      var t1 := this.(async := async - {id});
      var t2 := if LastLeaves(id) then t1.SetCanceled() else t1;
      t2.(log := t2.log + [ObserverUnregistered(async[id])])
    }

    /** Neither cancelled nor delivered: the task should be reachable under its key. */
    predicate Active() {
      !canceled && !(done && posted.None?)
    }

    /** A result is only posted after the body; `onCanceled` runs once, and never before a run of the body. */
    ghost predicate Ok() {
      (posted.Some? ==> done) &&
      Cancels(log) == (if canceled then 1 else 0) &&
      RunsBeforeCancel(log)
    }
  }

  /** `builder.invoke()` with `asyncInit` (async true: submitted to the pool) or `syncInit` (a `FutureTask` to run in place). */
  function NewTask<T(==)>(key: string, async: bool): Task<T> {
    Task(key, map[], {}, false, async, !async, false, None, [])
  }

  /** The setter flips the flag once: it is set afterwards, setting it again changes nothing, and the hook runs only on the flip. */
  lemma SetCanceledOnce<T>(t: Task<T>)
    requires Cancels(t.log) == (if t.canceled then 1 else 0)
    ensures t.SetCanceled().canceled
    ensures t.SetCanceled().SetCanceled() == t.SetCanceled()
    ensures t.SetCanceled().log == t.log + (if t.canceled then [] else [Canceled])
    ensures Cancels(t.SetCanceled().log) == 1
  {
    CountsAppend(t.log, Canceled);
  }

  /** The registry's four tables and every task it has built. */
  datatype Registry<T(==)> = Registry(
    keyTask: map<string, nat>,
    idTask: map<int, nat>,
    tagIds: map<string, set<int>>,
    idTag: map<int, string>,
    tasks: seq<Task<T>>)

  function Empty<T(==)>(): Registry<T> {
    Registry(map[], map[], map[], map[], [])
  }

  /** Task h is live while the key table maps its key to it. */
  ghost predicate Live<T>(r: Registry<T>, h: nat) {
    h < |r.tasks| && r.tasks[h].key in r.keyTask && r.keyTask[r.tasks[h].key] == h
  }

  /** Key k, when registered, maps to a task built under k. */
  ghost predicate KeyOk<T>(r: Registry<T>, k: string) {
    k in r.keyTask ==> r.keyTask[k] < |r.tasks| && r.tasks[r.keyTask[k]].key == k
  }

  /** Id id, when registered, belongs to a live task that holds it as an async observer. */
  ghost predicate IdOk<T>(r: Registry<T>, id: int) {
    id in r.idTask ==> id >= 0 && Live(r, r.idTask[id]) && id in r.tasks[r.idTask[id]].async
  }

  /** Task h is live exactly while active; when live it has an observer, and each async one is registered to it. */
  ghost predicate TaskOk<T>(r: Registry<T>, h: nat) {
    h < |r.tasks| ==>
      r.tasks[h].Ok() && (Live(r, h) <==> r.tasks[h].Active()) &&
      (Live(r, h) ==>
         r.tasks[h].HasObservers() &&
         forall id :: id in r.tasks[h].async ==> id in r.idTask && r.idTask[id] == h)
  }

  /** At most one task per key (a map), tagged ids are registered, and the parts above hold throughout. */
  ghost predicate Inv<T>(r: Registry<T>) {
    TagsValid(r.tagIds, r.idTag) &&
    (forall id :: id in r.idTag ==> id in r.idTask) &&
    (forall k :: KeyOk(r, k)) && (forall id :: IdOk(r, id)) && (forall h :: TaskOk(r, h))
  }

  /** What a step can do to tasks already built: keep their keys, only append to their logs, and never clear a cancellation. */
  ghost predicate Extends<T>(r: Registry<T>, r': Registry<T>) {
    |r.tasks| <= |r'.tasks| &&
    forall h :: 0 <= h < |r.tasks| ==>
      r'.tasks[h].key == r.tasks[h].key && r.tasks[h].log <= r'.tasks[h].log &&
      (r.tasks[h].canceled ==> r'.tasks[h].canceled)
  }

  lemma EmptyInv<T>()
    ensures Inv(Empty<T>())
  {
  }

  // ---------------------------------------------------------------------------
  // The steps, on values.
  // ---------------------------------------------------------------------------

  /** `keyTaskMap[key]`, or `builder.invoke()` with `asyncInit`/`syncInit` when the key has no task. */
  ghost function WithTask<T>(r: Registry<T>, key: string, async: bool): Registry<T> {
    if key in r.keyTask then r
    else r.(keyTask := r.keyTask[key := |r.tasks|], tasks := r.tasks + [NewTask(key, async)])
  }

  /** `asyncStart` once the id is chosen: join or build, `registerAsyncObserver`, then the tag links for a non-null tag. */
  ghost function AsyncJoined<T>(r: Registry<T>, key: string, tag: Option<string>, observer: Option<T>, id: int): Registry<T>
    requires KeyOk(r, key)
  {
    var r1 := WithTask(r, key, true);
    var h := r1.keyTask[key];
    var r2 := r1.(tasks := r1.tasks[h := r1.tasks[h].(async := r1.tasks[h].async[id := observer])],
                  idTask := r1.idTask[id := h]);
    match tag
    case None => r2
    case Some(g) => r2.(idTag := r2.idTag[id := g], tagIds := TagsWith(r2.tagIds, id, g))
  }

  /** The monitor-held part of `syncStart`: join or build with `syncInit`, then `registerSyncObserver`. */
  ghost function SyncJoined<T>(r: Registry<T>, key: string, observer: Option<T>): Registry<T>
    requires KeyOk(r, key)
  {
    var r1 := WithTask(r, key, false);
    var h := r1.keyTask[key];
    r1.(tasks := r1.tasks[h := r1.tasks[h].(sync := r1.tasks[h].sync + {observer})])
  }

  /** `removeId`. */
  ghost function RemovedId<T>(r: Registry<T>, id: int): Registry<T> {
    r.(idTask := r.idTask - {id}, idTag := r.idTag - {id}, tagIds := TagsWithout(r.tagIds, {id}))
  }

  /** `removeId` of every id in ids. */
  ghost function IdsRemoved<T>(r: Registry<T>, ids: set<int>): Registry<T> {
    r.(idTask := r.idTask - ids, idTag := r.idTag - ids, tagIds := TagsWithout(r.tagIds, ids))
  }

  lemma IdsRemovedNothing<T>(r: Registry<T>)
    requires TagsValid(r.tagIds, r.idTag)
    ensures IdsRemoved(r, {}) == r
  {
    TagsWithoutNothing(r.tagIds, r.idTag);
  }

  /** One more `removeId` extends the set of removed ids. */
  lemma IdsRemovedStep<T>(r: Registry<T>, done: set<int>, id: int)
    ensures RemovedId(IdsRemoved(r, done), id) == IdsRemoved(r, done + {id})
  {
    TagsWithoutCompose(r.tagIds, done, {id});
    assert r.idTask - done - {id} == r.idTask - (done + {id});
    assert r.idTag - done - {id} == r.idTag - (done + {id});
  }

  /** `unregister(id)` on a registered id: `removeId`, then Task.`unregisterAsyncObserver`. */
  ghost function Unregistered<T>(r: Registry<T>, id: int): Registry<T>
    requires id in r.idTask && IdOk(r, id)
  {
    var h := r.idTask[id];
    var t := r.tasks[h];
    RemovedId(r, id).(tasks := r.tasks[h := t.Detach(id)],
                      keyTask := if t.LastLeaves(id) then r.keyTask - {t.key} else r.keyTask)
  }

  /** Task.`clear`: drop the key and every async id of the task, keeping `asyncObserverMap`, and empty `syncObservers`. */
  ghost function Cleared<T>(r: Registry<T>, h: nat): Registry<T>
    requires h < |r.tasks|
  {
    var ids := r.tasks[h].async.Keys;
    r.(keyTask := r.keyTask - {r.tasks[h].key}, idTask := r.idTask - ids,
       idTag := r.idTag - ids, tagIds := TagsWithout(r.tagIds, ids),
       tasks := r.tasks[h := r.tasks[h].(sync := {})])
  }

  /** Task.`unregisterAll`: `clear`, then set `isCanceled`. */
  ghost function AllUnregistered<T>(r: Registry<T>, h: nat): Registry<T>
    requires h < |r.tasks|
  {
    Cleared(r, h).(tasks := r.tasks[h := r.tasks[h].(sync := {}).SetCanceled()])
  }

  /** `unregister(id)`: a registered id is unregistered; an unknown id changes nothing. */
  ghost function UnregisteredId<T>(r: Registry<T>, id: int): Registry<T> {
    if id in r.idTask && IdOk(r, id) then Unregistered(r, id) else r
  }

  /** `unregister(id)` for each id of order in turn, the loop of `unregisterByTag`. */
  ghost function UnregisteredIds<T>(r: Registry<T>, order: seq<int>): Registry<T>
    decreases |order|
  {
    if order == [] then r else UnregisteredId(UnregisteredIds(r, order[..|order| - 1]), order[|order| - 1])
  }

  lemma UnregisteredIdsSnoc<T>(r: Registry<T>, order: seq<int>, id: int)
    ensures UnregisteredIds(r, order + [id]) == UnregisteredId(UnregisteredIds(r, order), id)
  {
    assert (order + [id])[..|order|] == order;
  }

  /** `cancel(key)`: `unregisterAll` on the key's task; an unknown key changes nothing. */
  ghost function CanceledKey<T>(r: Registry<T>, key: string): Registry<T> {
    if key in r.keyTask && r.keyTask[key] < |r.tasks| then AllUnregistered(r, r.keyTask[key]) else r
  }

  /** `cancel(key)` for each key of order in turn, the loop of `cancelAll`. */
  ghost function CanceledKeys<T>(r: Registry<T>, order: seq<string>): Registry<T>
    decreases |order|
  {
    if order == [] then r else CanceledKey(CanceledKeys(r, order[..|order| - 1]), order[|order| - 1])
  }

  lemma CanceledKeysSnoc<T>(r: Registry<T>, order: seq<string>, key: string)
    ensures CanceledKeys(r, order + [key]) == CanceledKey(CanceledKeys(r, order), key)
  {
    assert (order + [key])[..|order|] == order;
  }

  /**
   * Task.`call`, run by a future that has not completed: return at once if
   * cancelled; otherwise run the body and post the result (null after an
   * exception), and mark the task done unless the body was interrupted.
   */
  ghost function Called<T>(r: Registry<T>, h: nat, outcome: Outcome): Registry<T>
    requires h < |r.tasks|
  {
    var t := r.tasks[h];
    if t.canceled then r
    else
      var t1 := t.(log := t.log + [BackgroundRun]);
      var t2 := match outcome
        case Finished(p) => t1.(posted := Some(p), done := true)
        case Interrupted => t1.(done := false)
        case Threw => t1.(posted := Some(false), done := true);
      r.(tasks := r.tasks[h := t2])
  }

  /** The posted message of `runResult`: leave a cancelled task alone, else `clear` and run the result. */
  ghost function Delivered<T>(r: Registry<T>, h: nat): Registry<T>
    requires h < |r.tasks| && r.tasks[h].posted.Some?
  {
    var t := r.tasks[h];
    var t1 := t.(posted := None);
    if t.canceled then r.(tasks := r.tasks[h := t1])
    else if t.posted.value then Cleared(r, h).(tasks := r.tasks[h := t1.(sync := {}, log := t1.log + [ResultRun(t.async)])])
    else Cleared(r, h).(tasks := r.tasks[h := t1.(sync := {})])
  }

  /**
   * The cleanup of `syncGet` when a sync caller leaves, with the key removed
   * only while it still maps to this task: with no sync and no async
   * observer left, cancel; with async observers left, hand an unfinished task
   * without an async future to the pool.
   */
  ghost function SyncLeft<T>(r: Registry<T>, h: nat, observer: Option<T>): Registry<T>
    requires h < |r.tasks|
  {
    var t := r.tasks[h];
    var t1 := t.(sync := t.sync - {observer});
    if |t1.sync| > 0 then r.(tasks := r.tasks[h := t1])
    else if |t1.async| == 0 then
      r.(keyTask := if t.key in r.keyTask && r.keyTask[t.key] == h then r.keyTask - {t.key} else r.keyTask,
         tasks := r.tasks[h := t1.SetCanceled()])
    else if !t.done && !t.asyncFuture then r.(tasks := r.tasks[h := t1.(asyncFuture := true, syncFuture := false)])
    else r.(tasks := r.tasks[h := t1])
  }

  /** The same cleanup as the source writes it: `keyTaskMap.remove(key)` whatever task the key maps to now. */
  ghost function SyncLeftAsWritten<T>(r: Registry<T>, h: nat, observer: Option<T>): Registry<T>
    requires h < |r.tasks|
  {
    var t := r.tasks[h];
    var t1 := t.(sync := t.sync - {observer});
    if |t1.sync| > 0 then r.(tasks := r.tasks[h := t1])
    else if |t1.async| == 0 then r.(keyTask := r.keyTask - {t.key}, tasks := r.tasks[h := t1.SetCanceled()])
    else if !t.done && !t.asyncFuture then r.(tasks := r.tasks[h := t1.(asyncFuture := true, syncFuture := false)])
    else r.(tasks := r.tasks[h := t1])
  }

  // ---------------------------------------------------------------------------
  // Every step keeps the invariant and extends the history.
  // ---------------------------------------------------------------------------

  /**
   * Replacing task h by a record with the same key and async observers,
   * exactly as active as before and with an observer while active, keeps
   * the invariant.
   */
  lemma ReplacedKeepsInv<T>(r: Registry<T>, h: nat, t: Task<T>)
    requires Inv(r) && h < |r.tasks|
    requires t.key == r.tasks[h].key && t.async == r.tasks[h].async
    requires t.Ok() && t.Active() == r.tasks[h].Active() && (t.Active() ==> t.HasObservers())
    requires r.tasks[h].log <= t.log && (r.tasks[h].canceled ==> t.canceled)
    ensures Inv(r.(tasks := r.tasks[h := t])) && Extends(r, r.(tasks := r.tasks[h := t]))
  {
    var r' := r.(tasks := r.tasks[h := t]);
    forall g: nat | g < |r.tasks| ensures Live(r', g) == Live(r, g) {
    }
    forall k ensures KeyOk(r', k) {
      assert KeyOk(r, k);
    }
    forall id ensures IdOk(r', id) {
      assert IdOk(r, id);
    }
    forall g: nat ensures TaskOk(r', g) {
      assert TaskOk(r, g);
    }
  }

  /**
   * Dropping live task h from the tables and replacing it by a record with
   * the same key and async observers that is no longer active keeps the
   * invariant.
   */
  lemma ClearedReplacedKeepsInv<T>(r: Registry<T>, h: nat, t: Task<T>)
    requires Inv(r) && Live(r, h)
    requires t.key == r.tasks[h].key && t.async == r.tasks[h].async
    requires t.Ok() && !t.Active()
    requires r.tasks[h].log <= t.log && (r.tasks[h].canceled ==> t.canceled)
    ensures Inv(Cleared(r, h).(tasks := r.tasks[h := t]))
    ensures Extends(r, Cleared(r, h).(tasks := r.tasks[h := t]))
  {
    var ids := r.tasks[h].async.Keys;
    var r' := Cleared(r, h).(tasks := r.tasks[h := t]);
    assert TaskOk(r, h);
    WithoutKeepsValid(r.tagIds, r.idTag, ids);
    forall g: nat | g < |r.tasks| && g != h ensures Live(r', g) == Live(r, g) {
    }
    forall k ensures KeyOk(r', k) {
      assert KeyOk(r, k);
    }
    forall id ensures IdOk(r', id) {
      assert IdOk(r, id);
    }
    forall g: nat ensures TaskOk(r', g) {
      assert TaskOk(r, g);
      if g < |r.tasks| && g != h && Live(r, g) {
        forall id | id in r'.tasks[g].async ensures id in r'.idTask && r'.idTask[id] == g {
          assert id !in ids;
        }
      }
    }
  }

  /** Registering a fresh id as an async observer of live task h keeps the key, id and task parts. */
  lemma AsyncJoinLive<T>(r: Registry<T>, r': Registry<T>, h: nat, id: int, observer: Option<T>)
    requires Inv(r) && Live(r, h) && id >= 0 && id !in r.idTask
    requires r'.keyTask == r.keyTask && r'.idTask == r.idTask[id := h]
    requires r'.tasks == r.tasks[h := r.tasks[h].(async := r.tasks[h].async[id := observer])]
    ensures (forall k :: KeyOk(r', k)) && (forall j :: IdOk(r', j)) && (forall g :: TaskOk(r', g))
    ensures Extends(r, r')
  {
    forall g: nat | g < |r.tasks| ensures Live(r', g) == Live(r, g) {
    }
    forall k ensures KeyOk(r', k) {
      assert KeyOk(r, k);
    }
    forall j ensures IdOk(r', j) {
      assert IdOk(r, j);
    }
    forall g: nat ensures TaskOk(r', g) {
      assert TaskOk(r, g);
    }
  }

  /** Building a task for an unregistered key with one fresh async observer keeps the key, id and task parts. */
  lemma AsyncJoinNew<T>(r: Registry<T>, r': Registry<T>, key: string, id: int, observer: Option<T>)
    requires Inv(r) && key !in r.keyTask && id >= 0 && id !in r.idTask
    requires r'.keyTask == r.keyTask[key := |r.tasks|] && r'.idTask == r.idTask[id := |r.tasks|]
    requires r'.tasks == r.tasks + [NewTask(key, true).(async := map[id := observer])]
    ensures (forall k :: KeyOk(r', k)) && (forall j :: IdOk(r', j)) && (forall g :: TaskOk(r', g))
    ensures Extends(r, r')
  {
    var h := |r.tasks|;
    forall g: nat | g < h ensures Live(r', g) == Live(r, g) {
      if Live(r', g) {
        assert r.tasks[g].key != key;
      }
    }
    assert Live(r', h);
    forall k ensures KeyOk(r', k) {
      assert KeyOk(r, k);
    }
    forall j ensures IdOk(r', j) {
      assert IdOk(r, j);
    }
    forall g: nat ensures TaskOk(r', g) {
      assert TaskOk(r, g);
    }
  }

  /** Adding a sync observer to live task h keeps the key, id and task parts. */
  lemma SyncJoinLive<T>(r: Registry<T>, r': Registry<T>, h: nat, observer: Option<T>)
    requires Inv(r) && Live(r, h)
    requires r'.keyTask == r.keyTask && r'.idTask == r.idTask
    requires r'.tasks == r.tasks[h := r.tasks[h].(sync := r.tasks[h].sync + {observer})]
    ensures (forall k :: KeyOk(r', k)) && (forall j :: IdOk(r', j)) && (forall g :: TaskOk(r', g))
    ensures Extends(r, r')
  {
    forall g: nat | g < |r.tasks| ensures Live(r', g) == Live(r, g) {
    }
    forall k ensures KeyOk(r', k) {
      assert KeyOk(r, k);
    }
    forall j ensures IdOk(r', j) {
      assert IdOk(r, j);
    }
    forall g: nat ensures TaskOk(r', g) {
      assert TaskOk(r, g);
      if g == h {
        assert observer in r'.tasks[h].sync;
      }
    }
  }

  /** Building a task for an unregistered key with one sync observer keeps the key, id and task parts. */
  lemma SyncJoinNew<T>(r: Registry<T>, r': Registry<T>, key: string, observer: Option<T>)
    requires Inv(r) && key !in r.keyTask
    requires r'.keyTask == r.keyTask[key := |r.tasks|] && r'.idTask == r.idTask
    requires r'.tasks == r.tasks + [NewTask(key, false).(sync := {observer})]
    ensures (forall k :: KeyOk(r', k)) && (forall j :: IdOk(r', j)) && (forall g :: TaskOk(r', g))
    ensures Extends(r, r')
  {
    var h := |r.tasks|;
    forall g: nat | g < h ensures Live(r', g) == Live(r, g) {
      if Live(r', g) {
        assert r.tasks[g].key != key;
      }
    }
    assert Live(r', h);
    forall k ensures KeyOk(r', k) {
      assert KeyOk(r, k);
    }
    forall j ensures IdOk(r', j) {
      assert IdOk(r, j);
    }
    forall g: nat ensures TaskOk(r', g) {
      assert TaskOk(r, g);
      if g == h {
        assert observer in r'.tasks[h].sync;
      }
    }
  }

  /** The tag part of the invariant after `asyncStart`. */
  lemma AsyncJoinedTags<T>(r: Registry<T>, key: string, tag: Option<string>, observer: Option<T>, id: int)
    requires Inv(r) && id >= 0 && id !in r.idTask
    ensures var r' := AsyncJoined(r, key, tag, observer, id);
      TagsValid(r'.tagIds, r'.idTag) && (forall j :: j in r'.idTag ==> j in r'.idTask)
  {
    assert id !in r.idTag;
    if tag.Some? {
      WithKeepsValid(r.tagIds, r.idTag, id, tag.value);
    }
  }

  lemma AsyncJoinedKeepsInv<T>(r: Registry<T>, key: string, tag: Option<string>, observer: Option<T>, id: int)
    requires Inv(r) && id >= 0 && id !in r.idTask
    ensures Inv(AsyncJoined(r, key, tag, observer, id)) && Extends(r, AsyncJoined(r, key, tag, observer, id))
  {
    var r' := AsyncJoined(r, key, tag, observer, id);
    AsyncJoinedTags(r, key, tag, observer, id);
    if key in r.keyTask {
      var h := r.keyTask[key];
      assert KeyOk(r, key);
      assert r'.idTask == r.idTask[id := h];
      AsyncJoinLive(r, r', h, id, observer);
    } else {
      assert r'.idTask == r.idTask[id := |r.tasks|];
      assert NewTask<T>(key, true).async[id := observer] == map[id := observer];
      AsyncJoinNew(r, r', key, id, observer);
    }
  }

  lemma SyncJoinedKeepsInv<T>(r: Registry<T>, key: string, observer: Option<T>)
    requires Inv(r)
    ensures Inv(SyncJoined(r, key, observer)) && Extends(r, SyncJoined(r, key, observer))
  {
    var r' := SyncJoined(r, key, observer);
    if key in r.keyTask {
      assert KeyOk(r, key);
      SyncJoinLive(r, r', r.keyTask[key], observer);
    } else {
      assert NewTask<T>(key, false).sync + {observer} == {observer};
      SyncJoinNew(r, r', key, observer);
    }
  }

  /**
   * Replacing live task h by t, which drops registered id from the async
   * observers and is live exactly while it keeps an observer, keeps the key,
   * id and task parts of the invariant.
   */
  ghost predicate DetachShape<T>(r: Registry<T>, r': Registry<T>, h: nat, id: int, t: Task<T>) {
    id in r.idTask && h == r.idTask[id] && h < |r.tasks| &&
    t.key == r.tasks[h].key && t.async == r.tasks[h].async - {id} &&
    t.Ok() && t.Active() == t.HasObservers() && t.canceled == !t.HasObservers() &&
    r.tasks[h].log <= t.log &&
    r'.idTask == r.idTask - {id} && r'.tasks == r.tasks[h := t] &&
    r'.keyTask == if t.HasObservers() then r.keyTask else r.keyTask - {t.key}
  }

  lemma DetachedKeys<T>(r: Registry<T>, r': Registry<T>, h: nat, id: int, t: Task<T>)
    requires Inv(r) && DetachShape(r, r', h, id, t)
    ensures forall k :: KeyOk(r', k)
  {
    forall k ensures KeyOk(r', k) {
      assert KeyOk(r, k);
    }
  }

  lemma DetachedIds<T>(r: Registry<T>, r': Registry<T>, h: nat, id: int, t: Task<T>)
    requires Inv(r) && Live(r, h) && DetachShape(r, r', h, id, t)
    ensures forall j :: IdOk(r', j)
  {
    assert TaskOk(r, h);
    forall j ensures IdOk(r', j) {
      assert IdOk(r, j);
      if j in r'.idTask && r.idTask[j] == h {
        assert j in t.async;
      }
    }
  }

  lemma DetachedTasks<T>(r: Registry<T>, r': Registry<T>, h: nat, id: int, t: Task<T>)
    requires Inv(r) && Live(r, h) && DetachShape(r, r', h, id, t)
    ensures forall g :: TaskOk(r', g)
    ensures Extends(r, r')
  {
    DetachedExtends(r, r', h, id, t);
    forall g: nat ensures TaskOk(r', g) {
      if g == h {
        DetachedOwnTask(r, r', h, id, t);
      } else {
        DetachedOtherTask(r, r', h, id, t, g);
      }
    }
  }

  /** Detaching replaces one live task by its successor and leaves the others alone. */
  lemma DetachedExtends<T>(r: Registry<T>, r': Registry<T>, h: nat, id: int, t: Task<T>)
    requires Inv(r) && Live(r, h) && DetachShape(r, r', h, id, t)
    ensures Extends(r, r')
  {
    assert TaskOk(r, h);
    assert !r.tasks[h].canceled;
    forall g | 0 <= g < |r.tasks|
      ensures r'.tasks[g].key == r.tasks[g].key && r.tasks[g].log <= r'.tasks[g].log &&
              (r.tasks[g].canceled ==> r'.tasks[g].canceled)
    {
      if g != h {
        assert r'.tasks[g] == r.tasks[g];
      }
    }
  }

  /** The task that lost the observer is live exactly while it keeps one. */
  lemma DetachedOwnTask<T>(r: Registry<T>, r': Registry<T>, h: nat, id: int, t: Task<T>)
    requires Inv(r) && Live(r, h) && DetachShape(r, r', h, id, t)
    ensures TaskOk(r', h)
  {
    assert TaskOk(r, h);
    assert r'.tasks[h] == t;
    if t.HasObservers() {
      assert Live(r', h);
      forall j | j in t.async ensures j in r'.idTask && r'.idTask[j] == h {
        assert j in r.tasks[h].async && j != id;
      }
    } else {
      assert t.key !in r'.keyTask;
    }
  }

  /** Every other task keeps its liveness and its observers' registrations. */
  lemma DetachedOtherTask<T>(r: Registry<T>, r': Registry<T>, h: nat, id: int, t: Task<T>, g: nat)
    requires Inv(r) && Live(r, h) && DetachShape(r, r', h, id, t) && g != h
    ensures TaskOk(r', g)
  {
    assert TaskOk(r, g);
    if g < |r.tasks| {
      assert r'.tasks[g] == r.tasks[g];
      assert Live(r', g) == Live(r, g);
      if Live(r, g) {
        forall j | j in r.tasks[g].async ensures j in r'.idTask && r'.idTask[j] == g {
          assert r.idTask[j] == g;
        }
      }
    }
  }

  /** The log of a task after `Detach`: the cancellation first when the last observer leaves, then the notice. */
  lemma DetachLog<T>(t: Task<T>, id: int)
    requires t.Ok() && !t.canceled && id in t.async
    ensures t.Detach(id).log ==
      t.log + (if t.LastLeaves(id) then [Canceled] else []) + [ObserverUnregistered(t.async[id])]
    ensures t.Detach(id).canceled == t.LastLeaves(id)
  {
  }

  /** An active task that loses async observer id keeps `Ok`, and is cancelled exactly when it has no observer left. */
  lemma DetachOk<T>(t: Task<T>, id: int)
    requires t.Ok() && t.Active() && id in t.async
    ensures var t' := t.Detach(id);
      t'.key == t.key && t'.async == t.async - {id} && t.log <= t'.log &&
      t'.Ok() && t'.Active() == t'.HasObservers() && t'.canceled == !t'.HasObservers()
  {
    DetachLog(t, id);
    var note := ObserverUnregistered(t.async[id]);
    var mid := t.log + (if t.LastLeaves(id) then [Canceled] else []);
    if t.LastLeaves(id) {
      CountsAppend(t.log, Canceled);
      AppendKeepsRunsBeforeCancel(t.log, Canceled);
    } else {
      assert mid == t.log;
    }
    CountsAppend(mid, note);
    AppendKeepsRunsBeforeCancel(mid, note);
  }

  lemma UnregisteredKeepsInv<T>(r: Registry<T>, id: int)
    requires Inv(r) && id in r.idTask
    ensures IdOk(r, id)
    ensures Inv(Unregistered(r, id)) && Extends(r, Unregistered(r, id))
  {
    assert IdOk(r, id);
    var h := r.idTask[id];
    var t := r.tasks[h];
    assert TaskOk(r, h);
    var r' := Unregistered(r, id);
    WithoutKeepsValid(r.tagIds, r.idTag, {id});
    DetachOk(t, id);
    var t' := t.Detach(id);
    assert r'.keyTask == if t'.HasObservers() then r.keyTask else r.keyTask - {t'.key};
    DetachedKeys(r, r', h, id, t');
    DetachedIds(r, r', h, id, t');
    DetachedTasks(r, r', h, id, t');
  }

  lemma AllUnregisteredKeepsInv<T>(r: Registry<T>, h: nat)
    requires Inv(r) && Live(r, h)
    ensures Inv(AllUnregistered(r, h)) && Extends(r, AllUnregistered(r, h))
  {
    assert TaskOk(r, h);
    CountsAppend(r.tasks[h].log, Canceled);
    AppendKeepsRunsBeforeCancel(r.tasks[h].log, Canceled);
    ClearedReplacedKeepsInv(r, h, r.tasks[h].(sync := {}).SetCanceled());
  }

  lemma CalledKeepsInv<T>(r: Registry<T>, h: nat, outcome: Outcome)
    requires Inv(r) && h < |r.tasks| && !r.tasks[h].done
    ensures Inv(Called(r, h, outcome)) && Extends(r, Called(r, h, outcome))
  {
    var t := r.tasks[h];
    assert TaskOk(r, h);
    if !t.canceled {
      CountsAppend(t.log, BackgroundRun);
      AppendKeepsRunsBeforeCancel(t.log, BackgroundRun);
      ReplacedKeepsInv(r, h, Called(r, h, outcome).tasks[h]);
    }
  }

  lemma DeliveredKeepsInv<T>(r: Registry<T>, h: nat)
    requires Inv(r) && h < |r.tasks| && r.tasks[h].posted.Some?
    ensures Inv(Delivered(r, h)) && Extends(r, Delivered(r, h))
  {
    var t := r.tasks[h];
    var t1 := t.(posted := None);
    assert TaskOk(r, h);
    if t.canceled {
      ReplacedKeepsInv(r, h, t1);
    } else if t.posted.value {
      CountsAppend(t.log, ResultRun(t.async));
      AppendKeepsRunsBeforeCancel(t.log, ResultRun(t.async));
      ClearedReplacedKeepsInv(r, h, t1.(sync := {}, log := t1.log + [ResultRun(t.async)]));
    } else {
      ClearedReplacedKeepsInv(r, h, t1.(sync := {}));
    }
  }

  lemma SyncLeftKeepsInv<T>(r: Registry<T>, h: nat, observer: Option<T>)
    requires Inv(r) && h < |r.tasks|
    ensures Inv(SyncLeft(r, h, observer)) && Extends(r, SyncLeft(r, h, observer))
  {
    var t := r.tasks[h];
    var t1 := t.(sync := t.sync - {observer});
    var r' := SyncLeft(r, h, observer);
    assert TaskOk(r, h);
    if |t1.sync| > 0 {
      assert r' == r.(tasks := r.tasks[h := t1]);
      ReplacedKeepsInv(r, h, t1);
    } else if |t1.async| == 0 {
      SyncLeftCancelsKeepsInv(r, h, observer);
    } else if !t.done && !t.asyncFuture {
      var t2 := t1.(asyncFuture := true, syncFuture := false);
      assert r' == r.(tasks := r.tasks[h := t2]);
      ReplacedKeepsInv(r, h, t2);
    } else {
      assert r' == r.(tasks := r.tasks[h := t1]);
      ReplacedKeepsInv(r, h, t1);
    }
  }

  /** The last observer of a task with no async observers leaving cancels it, keeping the invariant. */
  lemma SyncLeftCancelsKeepsInv<T>(r: Registry<T>, h: nat, observer: Option<T>)
    requires Inv(r) && h < |r.tasks|
    requires |r.tasks[h].sync - {observer}| == 0 && |r.tasks[h].async| == 0
    ensures Inv(SyncLeft(r, h, observer)) && Extends(r, SyncLeft(r, h, observer))
  {
    var t := r.tasks[h];
    var t1 := t.(sync := t.sync - {observer});
    var r' := SyncLeft(r, h, observer);
    assert TaskOk(r, h);
    CountsAppend(t1.log, Canceled);
    AppendKeepsRunsBeforeCancel(t1.log, Canceled);
    var t2 := t1.SetCanceled();
    if Live(r, h) {
      assert t1.async == map[];
      assert r' == r.(keyTask := r.keyTask - {t2.key}, tasks := r.tasks[h := t2]);
      SyncCancelLive(r, h, t2);
    } else {
      assert r' == r.(tasks := r.tasks[h := t2]);
      ReplacedKeepsInv(r, h, t2);
    }
  }

  /** Dropping the key of live task h, which has no async observer, and cancelling it keeps the invariant. */
  lemma SyncCancelLive<T>(r: Registry<T>, h: nat, t: Task<T>)
    requires Inv(r) && Live(r, h) && r.tasks[h].async == map[]
    requires t.key == r.tasks[h].key && t.async == r.tasks[h].async && t.Ok() && t.canceled
    requires r.tasks[h].log <= t.log
    ensures Inv(r.(keyTask := r.keyTask - {t.key}, tasks := r.tasks[h := t]))
    ensures Extends(r, r.(keyTask := r.keyTask - {t.key}, tasks := r.tasks[h := t]))
  {
    var r' := r.(keyTask := r.keyTask - {t.key}, tasks := r.tasks[h := t]);
    assert TaskOk(r, h);
    forall g: nat | g < |r.tasks| && g != h ensures Live(r', g) == Live(r, g) {
    }
    forall k ensures KeyOk(r', k) {
      assert KeyOk(r, k);
    }
    forall id ensures IdOk(r', id) {
      assert IdOk(r, id);
    }
    forall g: nat ensures TaskOk(r', g) {
      assert TaskOk(r, g);
    }
  }

  // ---------------------------------------------------------------------------
  // What the invariant buys.
  // ---------------------------------------------------------------------------

  /**
   * `unregister(id)` on a registered id finds the observer in its task: the
   * id and its tag link go, the log gains `onCanceled` when it was the last
   * observer of either kind followed by that observer's notification, and the
   * key goes exactly in that case.
   */
  lemma UnregisteredEffect<T>(r: Registry<T>, id: int)
    requires Inv(r) && id in r.idTask
    ensures IdOk(r, id)
    ensures var h := r.idTask[id]; var r' := Unregistered(r, id); var t := r.tasks[h]; var t' := r'.tasks[h];
      var last := |t.async| == 1 && |t.sync| == 0;
      id in t.async && t'.async == t.async - {id} && t'.sync == t.sync &&
      id !in r'.idTask && id !in r'.idTag && r'.tagIds == TagsWithout(r.tagIds, {id}) &&
      t'.log == t.log + (if last then [Canceled] else []) + [ObserverUnregistered(t.async[id])] &&
      t'.canceled == last && (t.key in r'.keyTask <==> !last) &&
      |r'.tasks| == |r.tasks| && forall g :: 0 <= g < |r.tasks| && g != h ==> r'.tasks[g] == r.tasks[g]
  {
    var h := r.idTask[id];
    assert IdOk(r, id) && TaskOk(r, h);
    var t := r.tasks[h];
    assert |t.async - {id}| == |t.async| - 1;
  }

  /** `cancel(key)` on a live task keeps its async observers, empties the sync ones and drops all its ids. */
  lemma AllUnregisteredEffect<T>(r: Registry<T>, h: nat)
    requires Inv(r) && Live(r, h)
    ensures var r' := AllUnregistered(r, h); var t := r.tasks[h];
      r'.tasks[h].async == t.async && r'.tasks[h].sync == {} && r'.tasks[h].canceled &&
      r'.tasks[h].log == t.log + [Canceled] &&
      t.key !in r'.keyTask && r'.idTask == r.idTask - t.async.Keys &&
      (forall id :: id in r'.idTask ==> r'.idTask[id] != h)
  {
    assert TaskOk(r, h);
    forall id | id in r.idTask - r.tasks[h].async.Keys ensures r.idTask[id] != h {
      assert IdOk(r, id);
    }
  }

  /** `isCanceled` flips once: after a task is cancelled no later step of a valid registry runs `onCanceled` again. */
  lemma CanceledOnce<T>(r: Registry<T>, r': Registry<T>, h: nat)
    requires Inv(r) && Inv(r') && Extends(r, r') && h < |r.tasks| && r.tasks[h].canceled
    ensures forall i :: |r.tasks[h].log| <= i < |r'.tasks[h].log| ==> !r'.tasks[h].log[i].IsCancel()
  {
    assert TaskOk(r, h) && TaskOk(r', h);
    NoLaterCancel(r.tasks[h].log, r'.tasks[h].log);
  }

  /** A cancelled task never runs `doInBackground` again: `call` returns at once. */
  lemma CanceledNeverRuns<T>(r: Registry<T>, r': Registry<T>, h: nat)
    requires Inv(r) && Inv(r') && Extends(r, r') && h < |r.tasks| && r.tasks[h].canceled
    ensures forall i :: |r.tasks[h].log| <= i < |r'.tasks[h].log| ==> !r'.tasks[h].log[i].BackgroundRun?
  {
    assert TaskOk(r, h) && TaskOk(r', h);
    NoRunAfterCancel(r.tasks[h].log, r'.tasks[h].log);
  }

  /** A body that throws anything but an interrupt posts a null result and marks the task done. */
  lemma ThrewPostsNull<T>(r: Registry<T>, h: nat)
    requires Inv(r) && h < |r.tasks| && !r.tasks[h].done && !r.tasks[h].canceled
    ensures var t' := Called(r, h, Threw).tasks[h];
      t'.posted == Some(false) && t'.done && t'.log == r.tasks[h].log + [BackgroundRun]
    ensures Delivered(Called(r, h, Threw), h).tasks[h].log == r.tasks[h].log + [BackgroundRun]
  {
  }

  /**
   * The message of a cancelled task does not `clear`: when a newer task runs
   * under the same key, delivering the old result leaves it registered.
   */
  lemma DeliveredSparesNewer<T>(r: Registry<T>, h: nat)
    requires Inv(r) && h < |r.tasks| && r.tasks[h].posted.Some? && r.tasks[h].canceled
    requires r.tasks[h].key in r.keyTask
    ensures r.keyTask[r.tasks[h].key] != h
    ensures Delivered(r, h).keyTask == r.keyTask
  {
    assert TaskOk(r, h);
  }

  /**
   * A sync task finishes and its result is delivered, then an async caller
   * starts a new task under the same key, while the sync caller has not yet
   * left.
   */
  ghost function NewerScenario(): Registry<int> {
    var r1 := SyncJoined(Empty<int>(), "k", None);
    var r2 := Called(r1, 0, Finished(false));
    var r3 := Delivered(r2, 0);
    AsyncJoined(r3, "k", None, None, 0)
  }

  lemma NewerScenarioShape()
    ensures Inv(NewerScenario())
    ensures NewerScenario().keyTask == map["k" := 1] && NewerScenario().idTask == map[0 := 1]
  {
    var r0 := Empty<int>();
    EmptyInv<int>();
    SyncJoinedKeepsInv(r0, "k", None);
    var r1 := SyncJoined(r0, "k", None);
    assert r1.keyTask == map["k" := 0] && |r1.tasks| == 1;
    assert r1.tasks[0] == NewTask("k", false).(sync := {None});
    CalledKeepsInv(r1, 0, Finished(false));
    var r2 := Called(r1, 0, Finished(false));
    DeliveredKeepsInv(r2, 0);
    var r3 := Delivered(r2, 0);
    assert r3.keyTask == map[] && r3.idTask == map[];
    assert KeyOk(r3, "k");
    AsyncJoinedKeepsInv(r3, "k", None, None, 0);
  }

  /**
   * The cleanup of `syncGet` as written removes a newer task's key: when the
   * sync caller of the scenario above leaves, the new task keeps its
   * registered id but is no longer under its key, so the invariant breaks;
   * the corrected cleanup leaves the key alone.
   */
  lemma SyncLeftAsWrittenDropsNewer()
    ensures var r4 := NewerScenario();
      Inv(r4) && r4.keyTask == map["k" := 1] && r4.idTask == map[0 := 1] &&
      !Inv(SyncLeftAsWritten(r4, 0, None)) && "k" !in SyncLeftAsWritten(r4, 0, None).keyTask &&
      SyncLeft(r4, 0, None).keyTask == r4.keyTask
  {
    NewerScenarioShape();
    var r4 := NewerScenario();
    var r5 := SyncLeftAsWritten(r4, 0, None);
    assert !IdOk(r5, 0);
  }

  /** `unregister(id)` on a valid registry unlinks exactly that id from the id and tag tables. */
  lemma UnregisteredTables<T>(r: Registry<T>, id: int)
    requires Inv(r) && id in r.idTask
    ensures IdOk(r, id)
    ensures var r' := Unregistered(r, id);
      r'.idTask == r.idTask - {id} && r'.idTag == r.idTag - {id} && r'.tagIds == TagsWithout(r.tagIds, {id})
  {
    assert IdOk(r, id);
  }

  /**
   * `unregisterByTag`'s loop on a valid registry: `unregister(id)` for each id
   * of a set of registered ids, in any order, unregisters exactly those ids
   * and unlinks them from their tags, keeping the invariant.
   */
  lemma {:induction false} UnregisteredIdsEffect<T>(r: Registry<T>, order: seq<int>, ids: set<int>)
    requires Inv(r) && Enumerates(order, ids) && ids <= r.idTask.Keys
    ensures var r' := UnregisteredIds(r, order);
      Inv(r') && Extends(r, r') &&
      r'.idTask == r.idTask - ids && r'.idTag == r.idTag - ids && r'.tagIds == TagsWithout(r.tagIds, ids)
  {
    if order == [] {
      TagsWithoutNothing(r.tagIds, r.idTag);
    } else {
      var p := order[..|order| - 1];
      var x := order[|order| - 1];
      UnregisteredIdsEffect(r, p, ids - {x});
      var rp := UnregisteredIds(r, p);
      assert x in rp.idTask;
      UnregisteredKeepsInv(rp, x);
      assert UnregisteredIds(r, order) == Unregistered(rp, x);
      UnregisteredTables(rp, x);
      TagsWithoutCompose(r.tagIds, ids - {x}, {x});
      RemoveAddBack(ids, x);
      MapRemoveStep(r.idTask, ids, x);
      MapRemoveStep(r.idTag, ids, x);
    }
  }

  /** One more round of `unregisterByTag`'s loop: the next id is still registered, and unregistering it extends the fold. */
  lemma UnregisterRound<T>(r: Registry<T>, order: seq<int>, ids: set<int>, rest: set<int>, id: int)
    requires Inv(r) && ids <= r.idTask.Keys && rest <= ids && id in rest && Enumerates(order, ids - rest)
    ensures Inv(UnregisteredIds(r, order)) && id in UnregisteredIds(r, order).idTask
    ensures UnregisteredIds(r, order + [id]) == UnregisteredId(UnregisteredIds(r, order), id)
    ensures Enumerates(order + [id], ids - (rest - {id}))
  {
    UnregisteredIdsEffect(r, order, ids - rest);
    UnregisteredIdsSnoc(r, order, id);
    EnumeratesNext(order, ids, rest, id);
  }

  /**
   * `cancelAll`'s loop on a valid registry: `cancel(key)` for each key of a
   * set of registered keys, in any order, drops exactly those keys; each of
   * their tasks loses its sync observers and is cancelled, and every other
   * task is left as it was.
   */
  lemma {:induction false} CanceledKeysEffect<T>(r: Registry<T>, order: seq<string>, ks: set<string>)
    requires Inv(r) && Enumerates(order, ks) && ks <= r.keyTask.Keys
    ensures var r' := CanceledKeys(r, order);
      r'.keyTask == r.keyTask - ks && |r'.tasks| == |r.tasks| &&
      forall h :: 0 <= h < |r.tasks| ==>
        r'.tasks[h] == if Live(r, h) && r.tasks[h].key in ks then r.tasks[h].(sync := {}).SetCanceled() else r.tasks[h]
  {
    if order != [] {
      var p := order[..|order| - 1];
      var k := order[|order| - 1];
      CanceledKeysEffect(r, p, ks - {k});
      var rp := CanceledKeys(r, p);
      assert KeyOk(r, k);
      var hk := r.keyTask[k];
      assert k in rp.keyTask && rp.keyTask[k] == hk;
      assert rp.tasks[hk] == r.tasks[hk];
      var r' := CanceledKeys(r, order);
      assert r' == AllUnregistered(rp, hk);
      assert r'.keyTask == r.keyTask - (ks - {k}) - {k};
      MapRemoveStep(r.keyTask, ks, k);
    }
  }

  /** With no key left, no id is registered and no tag remains. */
  lemma NoKeysNoIds<T>(r: Registry<T>)
    requires Inv(r) && r.keyTask == map[]
    ensures r.idTask == map[] && r.idTag == map[] && r.tagIds == map[]
  {
    assert forall id :: id in r.idTask ==> IdOk(r, id);
    assert forall id :: id !in r.idTask;
    assert forall id :: id !in r.idTag;
    assert forall tag :: tag in r.tagIds ==> (forall id :: id !in r.tagIds[tag]);
    assert forall tag :: tag !in r.tagIds;
  }

  // ---------------------------------------------------------------------------
  // The registry object of the source.
  // ---------------------------------------------------------------------------

  class TaskManager<T(==)> {
    /** `keyTaskMap`. */
    var keyTask: map<string, nat>
    /** `idTaskMap`. */
    var idTask: map<int, nat>
    /** `tagIdsMap`. */
    var tagIds: map<string, set<int>>
    /** `idTagMap`. */
    var idTag: map<int, string>
    /** Every Task object built so far, by index. */
    var tasks: seq<Task<T>>

    ghost function Abs(): Registry<T>
      reads this
    {
      Registry(keyTask, idTask, tagIds, idTag, tasks)
    }

    ghost predicate Valid()
      reads this
    {
      Inv(Abs())
    }

    constructor ()
      ensures Valid() && Abs() == Empty()
    {
      keyTask := map[];
      idTask := map[];
      tagIds := map[];
      idTag := map[];
      tasks := [];
    }

    /** `isRunning`: the key has a live task. */
    function IsRunning(key: string): (running: bool)
      requires Valid()
      reads this
      ensures running <==> exists h :: 0 <= h < |tasks| && Live(Abs(), h) && tasks[h].key == key
    {
      assert key in keyTask ==> KeyOk(Abs(), key) && Live(Abs(), keyTask[key]);
      key in keyTask
    }

    /** `keyTaskMap[key]`, or `builder.invoke()` with `asyncInit` (async) or `syncInit` when the key has no task. */
    method Attach(key: string, async: bool) returns (h: nat)
      requires Valid()
      modifies this
      ensures Abs() == WithTask(old(Abs()), key, async)
      ensures key in keyTask && h == keyTask[key] < |tasks|
    {
      if key in keyTask {
        h := keyTask[key];
        assert KeyOk(Abs(), key);
      } else {
        h := |tasks|;
        tasks := tasks + [NewTask(key, async)];
        keyTask := keyTask[key := h];
      }
    }

    /**
     * `asyncStart`: the lowest non-negative id not in `idTaskMap`, registered
     * with the key's task (built and submitted when there is none) and
     * linked to the tag when there is one.
     */
    method AsyncStart(key: string, tag: Option<string>, observer: Option<T>) returns (id: int)
      requires Valid()
      modifies this
      ensures Valid() && Extends(old(Abs()), Abs())
      ensures id >= 0 && id !in old(idTask) && (forall j :: 0 <= j < id ==> j in old(idTask))
      ensures Abs() == AsyncJoined(old(Abs()), key, tag, observer, id)
    {
      id := FreeId();
      ghost var r0 := Abs();
      AsyncJoinedKeepsInv(r0, key, tag, observer, id);
      var h := Attach(key, true);
      tasks := tasks[h := tasks[h].(async := tasks[h].async[id := observer])];
      idTask := idTask[id := h];
      if tag.Some? {
        idTag := idTag[id := tag.value];
        var ids := if tag.value in tagIds then tagIds[tag.value] else {};
        tagIds := tagIds[tag.value := ids + {id}];
      }
      assert Abs() == AsyncJoined(r0, key, tag, observer, id);
    }

    /** The id loop of `asyncStart`: the lowest non-negative id not in `idTaskMap`. */
    method FreeId() returns (id: int)
      ensures id >= 0 && id !in idTask
      ensures forall j :: 0 <= j < id ==> j in idTask
    {
      id := 0;
      while id in idTask
        invariant id >= 0
        invariant forall j :: 0 <= j < id ==> j in idTask
        decreases |idTask.Keys| - id
      {
        CountBelow(idTask.Keys, id + 1);
        id := id + 1;
      }
    }

    /** The monitor-held part of `syncStart`; the caller then waits on the returned task. */
    method SyncStart(key: string, observer: Option<T>) returns (h: nat)
      requires Valid()
      modifies this
      ensures Valid() && Extends(old(Abs()), Abs())
      ensures Abs() == SyncJoined(old(Abs()), key, observer)
      ensures h < |tasks| && Live(Abs(), h) && tasks[h].key == key && observer in tasks[h].sync
    {
      ghost var r0 := Abs();
      SyncJoinedKeepsInv(r0, key, observer);
      h := Attach(key, false);
      tasks := tasks[h := tasks[h].(sync := tasks[h].sync + {observer})];
      assert Abs() == SyncJoined(r0, key, observer);
      assert KeyOk(Abs(), key);
    }

    /** `removeId`. */
    method RemoveId(id: int)
      requires TagsValid(tagIds, idTag)
      modifies this
      ensures Abs() == RemovedId(old(Abs()), id)
    {
      idTask := idTask - {id};
      if id !in idTag {
        WithoutUntagged(tagIds, idTag, id);
        return;
      }
      var tag := idTag[id];
      WithoutTagged(tagIds, idTag, id);
      idTag := idTag - {id};
      var ids := tagIds[tag] - {id};
      if ids == {} {
        tagIds := tagIds - {tag};
      } else {
        tagIds := tagIds[tag := ids];
      }
    }

    /** Task.`clear`. */
    method Clear(h: nat)
      requires TagsValid(tagIds, idTag) && h < |tasks|
      modifies this
      ensures Abs() == Cleared(old(Abs()), h)
    {
      var t := tasks[h];
      keyTask := keyTask - {t.key};
      ghost var r1 := Abs();
      var rest := t.async.Keys;
      ghost var done: set<int> := {};
      IdsRemovedNothing(r1);
      while exists x :: x in rest
        invariant rest + done == t.async.Keys && rest !! done
        invariant Abs() == IdsRemoved(r1, done)
        invariant TagsValid(tagIds, idTag)
        decreases rest
      {
        var id :| id in rest;
        RemoveId(id);
        IdsRemovedStep(r1, done, id);
        WithoutKeepsValid(r1.tagIds, r1.idTag, done + {id});
        rest := rest - {id};
        done := done + {id};
      }
      assert done == t.async.Keys;
      tasks := tasks[h := tasks[h].(sync := {})];
    }

    /** The `isCanceled` setter given true. */
    method SetCanceled(h: nat)
      requires h < |tasks|
      modifies this
      ensures Abs() == old(Abs().(tasks := tasks[h := tasks[h].SetCanceled()]))
    {
      var t := tasks[h];
      if !t.canceled {
        t := t.(canceled := true);
        t := t.(log := t.log + [Canceled]);
        tasks := tasks[h := t];
      }
    }

    /** Task.`unregisterAsyncObserver`, after `unregister` found the id's task. */
    method UnregisterAsyncObserver(h: nat, id: int)
      requires Valid() && id in idTask && idTask[id] == h
      modifies this
      ensures Valid() && Extends(old(Abs()), Abs())
      ensures Abs() == Unregistered(old(Abs()), id)
    {
      ghost var r0 := Abs();
      UnregisteredKeepsInv(r0, id);
      RemoveId(id);
      var t := tasks[h];
      var observer := t.async[id];
      var t1 := t.(async := t.async - {id});
      if |t1.async| == 0 && |t1.sync| == 0 {
        keyTask := keyTask - {t.key};
        t1 := t1.SetCanceled();
      }
      t1 := t1.(log := t1.log + [ObserverUnregistered(observer)]);
      tasks := tasks[h := t1];
      assert t1 == t.Detach(id);
      assert keyTask == if t.LastLeaves(id) then r0.keyTask - {t.key} else r0.keyTask;
      assert Abs() == Unregistered(r0, id);
    }

    /** Task.`unregisterAll`. */
    method UnregisterAll(h: nat)
      requires Valid() && Live(Abs(), h)
      modifies this
      ensures Valid() && Extends(old(Abs()), Abs())
      ensures Abs() == AllUnregistered(old(Abs()), h)
    {
      ghost var r0 := Abs();
      AllUnregisteredKeepsInv(r0, h);
      Clear(h);
      SetCanceled(h);
      assert tasks == r0.tasks[h := r0.tasks[h].(sync := {}).SetCanceled()];
    }

    /** `unregister(id)`: true exactly when the id was registered. */
    method Unregister(id: int) returns (found: bool)
      requires Valid()
      modifies this
      ensures Valid() && Extends(old(Abs()), Abs())
      ensures found <==> id in old(idTask)
      ensures found ==> IdOk(old(Abs()), id) && Abs() == Unregistered(old(Abs()), id)
      ensures !found ==> Abs() == old(Abs())
    {
      if id in idTask {
        assert IdOk(Abs(), id);
        UnregisterAsyncObserver(idTask[id], id);
        found := true;
      } else {
        found := false;
      }
    }

    /** `cancel(key)`: `unregisterAll` on the key's task; true exactly when there was one. */
    method Cancel(key: string) returns (found: bool)
      requires Valid()
      modifies this
      ensures Valid() && Extends(old(Abs()), Abs())
      ensures found <==> key in old(keyTask)
      ensures found ==> old(keyTask[key]) < |old(tasks)| && Abs() == AllUnregistered(old(Abs()), old(keyTask[key]))
      ensures !found ==> Abs() == old(Abs())
    {
      if key in keyTask {
        assert KeyOk(Abs(), key);
        UnregisterAll(keyTask[key]);
        return true;
      }
      return false;
    }

    /** One round of `unregisterByTag`: `unregister(id)` on a registered id, which unlinks exactly that id. */
    method UnregisterStep(id: int)
      requires Valid() && id in idTask
      modifies this
      ensures Valid() && Extends(old(Abs()), Abs())
      ensures Abs() == UnregisteredId(old(Abs()), id)
      ensures idTask == old(idTask) - {id} && idTag == old(idTag) - {id}
      ensures tagIds == TagsWithout(old(tagIds), {id})
    {
      assert IdOk(Abs(), id);
      var found := Unregister(id);
    }

    /**
     * `unregisterByTag`: `unregister` each id of a snapshot of the tag's set,
     * in the order the snapshot is iterated; true exactly when the tag exists.
     */
    method UnregisterByTag(tag: string) returns (result: bool, ghost order: seq<int>)
      requires Valid()
      modifies this
      ensures Valid() && Extends(old(Abs()), Abs())
      ensures result <==> tag in old(tagIds)
      ensures tag !in tagIds
      ensures tag !in old(tagIds) ==> Abs() == old(Abs())
      ensures tag in old(tagIds) ==>
        Enumerates(order, old(tagIds)[tag]) && Abs() == UnregisteredIds(old(Abs()), order) &&
        idTask == old(idTask) - old(tagIds)[tag] && idTag == old(idTag) - old(tagIds)[tag] &&
        tagIds == TagsWithout(old(tagIds), old(tagIds)[tag])
    {
      order := [];
      if tag !in tagIds {
        return false, order;
      }
      var ids := tagIds[tag];
      assert ids <= idTask.Keys by {
        forall id | id in ids ensures id in idTask {
          assert id in idTag;
        }
      }
      ghost var r0 := Abs();
      order := UnregisterIds(ids);
      UnregisteredIdsEffect(r0, order, ids);
      return true, order;
    }

    /** The loop of `unregisterByTag`: `unregister(id)` for each id of the snapshot, in the list's order. */
    method UnregisterIds(ids: set<int>) returns (ghost order: seq<int>)
      requires Valid() && ids <= idTask.Keys
      modifies this
      ensures Enumerates(order, ids) && Abs() == UnregisteredIds(old(Abs()), order)
    {
      ghost var r0 := Abs();
      var rest := ids;
      order := [];
      while exists x :: x in rest
        invariant rest <= ids
        invariant Enumerates(order, ids - rest) && Abs() == UnregisteredIds(r0, order)
        decreases rest
      {
        var id :| id in rest;
        UnregisterRound(r0, order, ids, rest, id);
        UnregisterStep(id);
        order := order + [id];
        rest := rest - {id};
      }
      assert ids - rest == ids;
    }

    /**
     * `cancelAll`: `cancel(key)` for each key of a snapshot of the key table,
     * in the order the snapshot is iterated; every table ends empty, and every
     * live task loses its sync observers and is cancelled.
     */
    method CancelAll() returns (ghost order: seq<string>)
      requires Valid()
      modifies this
      ensures Valid() && Extends(old(Abs()), Abs())
      ensures Enumerates(order, old(keyTask).Keys) && Abs() == CanceledKeys(old(Abs()), order)
      ensures keyTask == map[] && idTask == map[] && tagIds == map[] && idTag == map[]
      ensures |tasks| == |old(tasks)|
      ensures forall h :: 0 <= h < |tasks| ==>
        tasks[h] == if Live(old(Abs()), h) then old(tasks)[h].(sync := {}).SetCanceled() else old(tasks)[h]
      ensures forall k :: k in old(keyTask) ==> old(keyTask)[k] < |tasks| && tasks[old(keyTask)[k]].canceled
    {
      var keys := keyTask.Keys;
      var rest := keys;
      order := [];
      while exists x :: x in rest
        invariant Valid() && Extends(old(Abs()), Abs())
        invariant rest <= keys && keys == old(keyTask).Keys
        invariant Enumerates(order, keys - rest) && Abs() == CanceledKeys(old(Abs()), order)
        decreases rest
      {
        var key :| key in rest;
        CanceledKeysSnoc(old(Abs()), order, key);
        var _ := Cancel(key);
        EnumeratesNext(order, keys, rest, key);
        order := order + [key];
        rest := rest - {key};
      }
      assert keys - rest == keys;
      CanceledKeysEffect(old(Abs()), order, keys);
      forall h | 0 <= h < |old(tasks)| && Live(old(Abs()), h) ensures old(tasks)[h].key in keys { }
      assert keyTask == map[];
      NoKeysNoIds(Abs());
      forall k | k in old(keyTask) ensures old(keyTask)[k] < |tasks| && tasks[old(keyTask)[k]].canceled {
        assert KeyOk(old(Abs()), k);
      }
    }

    /** Task.`call`, run by a future of the task that has not completed. */
    method Call(h: nat, outcome: Outcome)
      requires Valid() && h < |tasks| && !tasks[h].done
      modifies this
      ensures Valid() && Extends(old(Abs()), Abs())
      ensures Abs() == Called(old(Abs()), h, outcome)
    {
      CalledKeepsInv(Abs(), h, outcome);
      var t := tasks[h];
      if t.canceled {
        return;
      }
      var log := t.log + [BackgroundRun];
      match outcome {
        case Finished(p) =>
          t := t.(log := log, posted := Some(p), done := true);
        case Interrupted =>
          t := t.(log := log, done := false);
        case Threw =>
          t := t.(log := log, posted := Some(false), done := true);
      }
      tasks := tasks[h := t];
    }

    /** The posted half of `runResult`. */
    method RunResult(h: nat)
      requires Valid() && h < |tasks| && tasks[h].posted.Some?
      modifies this
      ensures Valid() && Extends(old(Abs()), Abs())
      ensures Abs() == Delivered(old(Abs()), h)
    {
      ghost var r0 := Abs();
      DeliveredKeepsInv(r0, h);
      var t := tasks[h];
      var result := t.posted.value;
      if t.canceled {
        tasks := tasks[h := t.(posted := None)];
        return;
      }
      Clear(h);
      var t1 := t.(posted := None, sync := {});
      if result {
        t1 := t1.(log := t1.log + [ResultRun(t.async)]);
      }
      tasks := tasks[h := t1];
      assert Abs() == Delivered(r0, h);
    }

    /** The end of `syncGet`: the sync caller with this observer leaves the task. */
    method SyncLeave(h: nat, observer: Option<T>)
      requires Valid() && h < |tasks|
      modifies this
      ensures Valid() && Extends(old(Abs()), Abs())
      ensures Abs() == SyncLeft(old(Abs()), h, observer)
    {
      SyncLeftKeepsInv(Abs(), h, observer);
      var t := tasks[h];
      var t1 := t.(sync := t.sync - {observer});
      if |t1.sync| == 0 {
        if |t1.async| == 0 {
          if t.key in keyTask && keyTask[t.key] == h {
            keyTask := keyTask - {t.key};
          }
          t1 := t1.SetCanceled();
        } else if !t.done && !t.asyncFuture {
          t1 := t1.(asyncFuture := true, syncFuture := false);
        }
      }
      tasks := tasks[h := t1];
    }
  }
}
