/**
 * The main-thread task registry of the urlloader package
 * (urlloader/MultiObserverTaskManager.java): tasks keyed by a non-empty
 * string, joined by observers that each receive the lowest free integer id,
 * optionally grouped by a non-empty tag, detached one by one or all at once,
 * and cancelled once.
 *
 * Every public call is one atomic step (the source checks that it runs on the
 * main thread). The Task objects are records in the registry's `tasks`
 * table, addressed by their index, which plays the part of the object
 * reference. User hooks are not run: each call is recorded in the task's log.
 */
module ObserverTaskManager {
  import opened Common
  import opened Tags
  import opened Hooks

  /** How `doInBackground` ended: normally (having called `setPostResult` or not), or by an exception. */
  datatype Outcome = Finished(setPostResult: bool) | Threw

  /**
   * The task's `FutureTask` in the pool: not yet picked up, running its body,
   * over, or cancelled before it was picked up (so `run` is never called).
   */
  datatype FutureState = Pending | Started | Done | Cancelled

  /** A `Task`: its key, `mObserverMap`, `mCanceled`, `mFuture`, the posted `runResult` message and the hook log. */
  datatype Task<T> = Task(
    key: string,
    observers: map<int, Option<T>>,
    canceled: bool,
    future: FutureState,
    /** The main-thread message of `runResult`: Some(true) with a result runnable, Some(false) with null. */
    posted: Option<bool>,
    log: seq<Callback<T>>)
  {
    /** Task.`cancel`: set the flag, cancel the future (prevents a run not yet begun), call `onCanceled`. */
    function Cancel(): Task<T> {
      this.(canceled := true, future := if future == Pending then Cancelled else future, log := log + [Canceled])
    }

    /** Neither cancelled nor delivered: the task should be reachable under its key. */
    predicate Active() {
      !canceled && (future != Done || posted.Some?)
    }

    /** A result is only posted after the body; `onCanceled` runs once per cancellation; the body runs at most once. */
    ghost predicate Ok() {
      (posted.Some? ==> future == Done) &&
      (canceled ==> future != Pending) &&
      Cancels(log) == (if canceled then 1 else 0) &&
      BackgroundRuns(log) <= (if future == Done then 1 else 0) &&
      RunsBeforeCancel(log)
    }
  }

  /** `builder.build()` and `start()`: a fresh task, submitted to the pool. */
  function NewTask<T>(key: string): Task<T> {
    Task(key, map[], false, Pending, None, [])
  }

  /** The registry's four tables and every task it has built. */
  datatype Registry<T> = Registry(
    keyTask: map<string, nat>,
    idTask: map<int, nat>,
    tagIds: map<string, set<int>>,
    idTag: map<int, string>,
    tasks: seq<Task<T>>)

  /** Task h is live while the key table maps its key to it. */
  ghost predicate Live<T>(r: Registry<T>, h: nat) {
    h < |r.tasks| && r.tasks[h].key in r.keyTask && r.keyTask[r.tasks[h].key] == h
  }

  /** Key k, when registered, maps to a task built under k. */
  ghost predicate KeyOk<T>(r: Registry<T>, k: string) {
    k in r.keyTask ==> k != "" && r.keyTask[k] < |r.tasks| && r.tasks[r.keyTask[k]].key == k
  }

  /** Id id, when registered, belongs to a live task that holds it. */
  ghost predicate IdOk<T>(r: Registry<T>, id: int) {
    id in r.idTask ==> id >= 0 && Live(r, r.idTask[id]) && id in r.tasks[r.idTask[id]].observers
  }

  /** Task h is live exactly while active; when live it has observers, each registered to it. */
  ghost predicate TaskOk<T>(r: Registry<T>, h: nat) {
    h < |r.tasks| ==>
      r.tasks[h].Ok() && (Live(r, h) <==> r.tasks[h].Active()) &&
      (Live(r, h) ==>
         |r.tasks[h].observers| > 0 &&
         forall id :: id in r.tasks[h].observers ==> id in r.idTask && r.idTask[id] == h)
  }

  /** At most one task per key (a map), tagged ids are registered, and the parts above hold throughout. */
  ghost predicate Inv<T>(r: Registry<T>) {
    TagsValid(r.tagIds, r.idTag) && "" !in r.tagIds &&
    (forall id :: id in r.idTag ==> id in r.idTask) &&
    (forall k :: KeyOk(r, k)) && (forall id :: IdOk(r, id)) && (forall h :: TaskOk(r, h))
  }

  /**
   * What a step can do to tasks already built: keep their keys, only append
   * to their logs, and never clear a cancellation.
   */
  ghost predicate Extends<T>(r: Registry<T>, r': Registry<T>) {
    |r.tasks| <= |r'.tasks| &&
    forall h :: 0 <= h < |r.tasks| ==>
      r'.tasks[h].key == r.tasks[h].key && r.tasks[h].log <= r'.tasks[h].log &&
      (r.tasks[h].canceled ==> r'.tasks[h].canceled)
  }

  // ---------------------------------------------------------------------------
  // The steps, on values. The methods of TaskManager below perform them in place.
  // ---------------------------------------------------------------------------

  /** `mKeyTaskMap.get(key)`, or `builder.build()` and Task.`start` when the key has no task. */
  ghost function WithTask<T>(r: Registry<T>, key: string): Registry<T> {
    if key in r.keyTask then r
    else r.(keyTask := r.keyTask[key := |r.tasks|], tasks := r.tasks + [NewTask(key)])
  }

  /** Task.`registerObserver`. */
  ghost function Registered<T>(r: Registry<T>, h: nat, id: int, observer: Option<T>): Registry<T>
    requires h < |r.tasks|
  {
    r.(tasks := r.tasks[h := r.tasks[h].(observers := r.tasks[h].observers[id := observer])],
       idTask := r.idTask[id := h])
  }

  /** The tag links of `start`, made only for a non-empty tag. */
  ghost function Tagged<T>(r: Registry<T>, id: int, tag: string): Registry<T> {
    if tag == "" then r else r.(idTag := r.idTag[id := tag], tagIds := TagsWith(r.tagIds, id, tag))
  }

  /** `start` once the id is chosen: join the key's task or build one, register the observer, link the tag. */
  ghost function Joined<T>(r: Registry<T>, key: string, tag: string, observer: Option<T>, id: int): Registry<T>
    requires KeyOk(r, key)
  {
    var r1 := WithTask(r, key);
    Tagged(Registered(r1, r1.keyTask[key], id, observer), id, tag)
  }

  /** Task.`removeTagId`. */
  ghost function Untagged<T>(r: Registry<T>, id: int): Registry<T> {
    r.(idTag := r.idTag - {id}, tagIds := TagsWithout(r.tagIds, {id}))
  }

  /** Task.`unregisterObserver`'s removal of the observer, reported to `onObserverUnregistered`. */
  ghost function Dropped<T>(r: Registry<T>, h: nat, id: int): Registry<T>
    requires h < |r.tasks|
  {
    var t := r.tasks[h];
    if id in t.observers
    then r.(tasks := r.tasks[h := t.(log := t.log + [ObserverUnregistered(t.observers[id])],
                                     observers := t.observers - {id})])
    else r
  }

  /** Task.`unregisterObserver`'s last step: with no observer left, drop the key and cancel. */
  ghost function Closed<T>(r: Registry<T>, h: nat): Registry<T>
    requires h < |r.tasks|
  {
    if |r.tasks[h].observers| == 0
    then r.(keyTask := r.keyTask - {r.tasks[h].key}, tasks := r.tasks[h := r.tasks[h].Cancel()])
    else r
  }

  /** Task.`unregisterObserver`: unlink id, report its observer, cancel the task if none is left. */
  ghost function Detached<T>(r: Registry<T>, id: int): Registry<T>
    requires id in r.idTask && IdOk(r, id)
  {
    var h := r.idTask[id];
    Closed(Dropped(Untagged(r, id).(idTask := r.idTask - {id}), h, id), h)
  }

  /** The tables once the ids are unregistered and unlinked from their tags. */
  ghost function IdsRemoved<T>(r: Registry<T>, ids: set<int>): Registry<T> {
    r.(idTask := r.idTask - ids, idTag := r.idTag - ids, tagIds := TagsWithout(r.tagIds, ids))
  }

  lemma IdsRemovedNothing<T>(r: Registry<T>)
    requires TagsValid(r.tagIds, r.idTag)
    ensures IdsRemoved(r, {}) == r
  {
    TagsWithoutNothing(r.tagIds, r.idTag);
  }

  /** One more round of `clear` (unregister the id, then `removeTagId`) extends the set of removed ids. */
  lemma IdsRemovedStep<T>(r: Registry<T>, done: set<int>, id: int)
    ensures var r1 := IdsRemoved(r, done);
      Untagged(r1.(idTask := r1.idTask - {id}), id) == IdsRemoved(r, done + {id})
  {
    TagsWithoutCompose(r.tagIds, done, {id});
    assert r.idTask - done - {id} == r.idTask - (done + {id});
    assert r.idTag - done - {id} == r.idTag - (done + {id});
  }

  /** Task.`clear`: drop the key and every id of the task, keeping its observer map. */
  ghost function Cleared<T>(r: Registry<T>, h: nat): Registry<T>
    requires h < |r.tasks|
  {
    var ids := r.tasks[h].observers.Keys;
    r.(keyTask := r.keyTask - {r.tasks[h].key}, idTask := r.idTask - ids,
       idTag := r.idTag - ids, tagIds := TagsWithout(r.tagIds, ids))
  }

  /** Task.`unregisterAll`: `clear`, then `cancel`. */
  ghost function Unregistered<T>(r: Registry<T>, h: nat): Registry<T>
    requires h < |r.tasks|
  {
    Cleared(r, h).(tasks := r.tasks[h := r.tasks[h].Cancel()])
  }

  /** The pool picks the task up: `FutureTask.run` begins, so cancelling no longer prevents `run`. */
  ghost function Begun<T>(r: Registry<T>, h: nat): Registry<T>
    requires h < |r.tasks|
  {
    var t := r.tasks[h];
    if t.future == Pending then r.(tasks := r.tasks[h := t.(future := Started)]) else r
  }

  /** Task.`run` on a begun task: skip a cancelled one, otherwise run the body and post the result. */
  ghost function Ran<T>(r: Registry<T>, h: nat, outcome: Outcome): Registry<T>
    requires h < |r.tasks|
  {
    var t := r.tasks[h];
    if t.future != Started then r
    else if t.canceled then r.(tasks := r.tasks[h := t.(future := Done)])
    else r.(tasks := r.tasks[h := t.(future := Done, log := t.log + [BackgroundRun],
                                     posted := Some(outcome == Finished(true)))])
  }

  /** The posted message of `runResult`: leave a cancelled task alone, else `clear` and run the result. */
  ghost function Delivered<T>(r: Registry<T>, h: nat): Registry<T>
    requires h < |r.tasks| && r.tasks[h].posted.Some?
  {
    var t := r.tasks[h];
    var t1 := t.(posted := None);
    if t.canceled then r.(tasks := r.tasks[h := t1])
    else if t.posted.value then Cleared(r, h).(tasks := r.tasks[h := t1.(log := t1.log + [ResultRun(t.observers)])])
    else Cleared(r, h).(tasks := r.tasks[h := t1])
  }

  /** `cancel(int id)`: detach a registered id; an unknown id changes nothing. */
  ghost function CanceledId<T>(r: Registry<T>, id: int): Registry<T> {
    if id in r.idTask && IdOk(r, id) then Detached(r, id) else r
  }

  /** `cancel(id)` for each id of order in turn, the loop of `cancelByTag`. */
  ghost function CanceledIds<T>(r: Registry<T>, order: seq<int>): Registry<T>
    decreases |order|
  {
    if order == [] then r else CanceledId(CanceledIds(r, order[..|order| - 1]), order[|order| - 1])
  }

  lemma CanceledIdsSnoc<T>(r: Registry<T>, order: seq<int>, id: int)
    ensures CanceledIds(r, order + [id]) == CanceledId(CanceledIds(r, order), id)
  {
    assert (order + [id])[..|order|] == order;
  }

  /** `cancel(String key)`: `unregisterAll` on the key's task; an empty or unknown key changes nothing. */
  ghost function CanceledKey<T>(r: Registry<T>, key: string): Registry<T> {
    if key != "" && key in r.keyTask && r.keyTask[key] < |r.tasks| then Unregistered(r, r.keyTask[key]) else r
  }

  /** `cancel(key)` for each key of order in turn, the loop of `cancelAll`. */
  ghost function CanceledKeys<T>(r: Registry<T>, order: seq<string>): Registry<T>
    decreases |order|
  {
    if order == [] then r else CanceledKey(CanceledKeys(r, order[..|order| - 1]), order[|order| - 1])
  }

  lemma CanceledKeysSnoc<T>(r: Registry<T>, order: seq<string>, key: string)
    ensures CanceledKeys(r, order + [key]) == CanceledKey(CanceledKeys(r, order), key)
  {
    assert (order + [key])[..|order|] == order;
  }

  // ---------------------------------------------------------------------------
  // Every step keeps the invariant and extends the history.
  // ---------------------------------------------------------------------------

  /**
   * Replacing task h by a record with the same key and observers, exactly as
   * active as before, keeps the invariant.
   */
  lemma ReplacedKeepsInv<T>(r: Registry<T>, h: nat, t: Task<T>)
    requires Inv(r) && h < |r.tasks|
    requires t.key == r.tasks[h].key && t.observers == r.tasks[h].observers
    requires t.Ok() && t.Active() == r.tasks[h].Active()
    requires r.tasks[h].log <= t.log && (r.tasks[h].canceled ==> t.canceled)
    ensures Inv(r.(tasks := r.tasks[h := t])) && Extends(r, r.(tasks := r.tasks[h := t]))
  {
    var r' := r.(tasks := r.tasks[h := t]);
    forall g | 0 <= g < |r.tasks| ensures Live(r', g) == Live(r, g) {
    }
    forall k | k in r'.keyTask ensures KeyOk(r', k) {
      assert KeyOk(r, k);
    }
    forall id | id in r'.idTask ensures IdOk(r', id) {
      assert IdOk(r, id);
    }
    forall g | 0 <= g < |r'.tasks| ensures TaskOk(r', g) {
      assert TaskOk(r, g);
    }
  }

  /**
   * Clearing live task h and replacing it by a record with the same key and
   * observers that is no longer active keeps the invariant.
   */
  lemma ClearedReplacedKeepsInv<T>(r: Registry<T>, h: nat, t: Task<T>)
    requires Inv(r) && Live(r, h)
    requires t.key == r.tasks[h].key && t.observers == r.tasks[h].observers
    requires t.Ok() && !t.Active()
    requires r.tasks[h].log <= t.log && (r.tasks[h].canceled ==> t.canceled)
    ensures Inv(Cleared(r, h).(tasks := r.tasks[h := t]))
    ensures Extends(r, Cleared(r, h).(tasks := r.tasks[h := t]))
  {
    var ids := r.tasks[h].observers.Keys;
    var r' := Cleared(r, h).(tasks := r.tasks[h := t]);
    assert TaskOk(r, h);
    WithoutKeepsValid(r.tagIds, r.idTag, ids);
    forall g | 0 <= g < |r.tasks| && g != h ensures Live(r', g) == Live(r, g) {
    }
    forall k | k in r'.keyTask ensures KeyOk(r', k) {
      assert KeyOk(r, k);
    }
    forall id | id in r'.idTask ensures IdOk(r', id) {
      assert IdOk(r, id);
    }
    forall g | 0 <= g < |r'.tasks| ensures TaskOk(r', g) {
      assert TaskOk(r, g);
      if g != h && Live(r, g) {
        forall id | id in r'.tasks[g].observers ensures id in r'.idTask && r'.idTask[id] == g {
          assert id !in ids;
        }
      }
    }
  }

  /** The tag part of the invariant after `start`. */
  lemma JoinedKeepsTags<T>(r: Registry<T>, key: string, tag: string, observer: Option<T>, id: int)
    requires Inv(r) && key != "" && id >= 0 && id !in r.idTask
    ensures var r' := Joined(r, key, tag, observer, id);
      TagsValid(r'.tagIds, r'.idTag) && "" !in r'.tagIds &&
      (forall j :: j in r'.idTag ==> j in r'.idTask)
  {
    assert id !in r.idTag;
    if tag != "" {
      WithKeepsValid(r.tagIds, r.idTag, id, tag);
    }
  }

  /** Registering a fresh id with live task h keeps the key, id and task parts of the invariant. */
  lemma JoinedLiveTask<T>(r: Registry<T>, r': Registry<T>, h: nat, id: int, observer: Option<T>)
    requires Inv(r) && Live(r, h) && id >= 0 && id !in r.idTask
    requires r'.keyTask == r.keyTask && r'.idTask == r.idTask[id := h]
    requires r'.tasks == r.tasks[h := r.tasks[h].(observers := r.tasks[h].observers[id := observer])]
    ensures (forall k :: KeyOk(r', k)) && (forall j :: IdOk(r', j)) && (forall g :: TaskOk(r', g))
    ensures Extends(r, r')
  {
    forall g: nat | g < |r.tasks| ensures Live(r', g) == Live(r, g) {
    }
    forall k ensures KeyOk(r', k) {
      assert KeyOk(r, k);
    }
    forall j ensures IdOk(r', j) {
      assert IdOk(r, j);
    }
    forall g: nat ensures TaskOk(r', g) {
      assert TaskOk(r, g);
      if g == h {
        assert id in r'.tasks[g].observers;
      }
    }
  }

  /** Building a task for an unregistered key with one fresh id keeps the key, id and task parts. */
  lemma JoinedNewTask<T>(r: Registry<T>, r': Registry<T>, key: string, id: int, observer: Option<T>)
    requires Inv(r) && key != "" && key !in r.keyTask && id >= 0 && id !in r.idTask
    requires r'.keyTask == r.keyTask[key := |r.tasks|] && r'.idTask == r.idTask[id := |r.tasks|]
    requires r'.tasks == r.tasks + [NewTask(key).(observers := map[id := observer])]
    ensures (forall k :: KeyOk(r', k)) && (forall j :: IdOk(r', j)) && (forall g :: TaskOk(r', g))
    ensures Extends(r, r')
  {
    var h := |r.tasks|;
    forall g: nat | g < h ensures Live(r', g) == Live(r, g) {
      if Live(r', g) {
        assert r.tasks[g].key != key;
      }
    }
    assert Live(r', h);
    forall k ensures KeyOk(r', k) {
      assert KeyOk(r, k);
    }
    forall j ensures IdOk(r', j) {
      assert IdOk(r, j);
    }
    forall g: nat ensures TaskOk(r', g) {
      assert TaskOk(r, g);
    }
  }

  lemma JoinedKeepsInv<T>(r: Registry<T>, key: string, tag: string, observer: Option<T>, id: int)
    requires Inv(r) && key != "" && id >= 0 && id !in r.idTask
    ensures Inv(Joined(r, key, tag, observer, id)) && Extends(r, Joined(r, key, tag, observer, id))
  {
    var r' := Joined(r, key, tag, observer, id);
    JoinedKeepsTags(r, key, tag, observer, id);
    if key in r.keyTask {
      var h := r.keyTask[key];
      assert KeyOk(r, key);
      JoinedLiveTask(r, r', h, id, observer);
    } else {
      assert NewTask<T>(key).observers[id := observer] == map[id := observer];
      JoinedNewTask(r, r', key, id, observer);
    }
  }

  /**
   * r' is r with live task h, which held id, replaced by t: t drops id from
   * the observers, is live exactly while it keeps one and is cancelled once
   * it keeps none, and only id is unregistered.
   */
  ghost predicate DetachStep<T>(r: Registry<T>, r': Registry<T>, h: nat, id: int, t: Task<T>) {
    h < |r.tasks| && t.key == r.tasks[h].key && t.observers == r.tasks[h].observers - {id} &&
    t.Ok() && t.Active() == (|t.observers| > 0) &&
    r.tasks[h].log <= t.log && t.canceled == (|t.observers| == 0) &&
    r'.idTask == r.idTask - {id} && r'.tasks == r.tasks[h := t] &&
    r'.keyTask == if |t.observers| == 0 then r.keyTask - {t.key} else r.keyTask
  }

  lemma DetachStepKeys<T>(r: Registry<T>, r': Registry<T>, h: nat, id: int, t: Task<T>)
    requires Inv(r) && id in r.idTask && h == r.idTask[id] && IdOk(r, id) && DetachStep(r, r', h, id, t)
    ensures forall k :: KeyOk(r', k)
  {
    forall k ensures KeyOk(r', k) {
      assert KeyOk(r, k);
    }
  }

  lemma DetachStepIds<T>(r: Registry<T>, r': Registry<T>, h: nat, id: int, t: Task<T>)
    requires Inv(r) && id in r.idTask && h == r.idTask[id] && IdOk(r, id) && DetachStep(r, r', h, id, t)
    ensures forall j :: IdOk(r', j)
  {
    assert TaskOk(r, h);
    forall g: nat | g < |r.tasks| && g != h ensures Live(r', g) == Live(r, g) {
    }
    forall j ensures IdOk(r', j) {
      assert IdOk(r, j);
      if j in r'.idTask && r.idTask[j] == h {
        assert j in t.observers;
      }
    }
  }

  lemma DetachStepTask<T>(r: Registry<T>, r': Registry<T>, h: nat, id: int, t: Task<T>, g: nat)
    requires Inv(r) && id in r.idTask && h == r.idTask[id] && IdOk(r, id) && DetachStep(r, r', h, id, t)
    ensures TaskOk(r', g)
  {
    assert TaskOk(r, g);
    if g < |r.tasks| && g != h {
      assert r'.tasks[g] == r.tasks[g];
      assert Live(r', g) == Live(r, g);
    } else if g == h {
      assert TaskOk(r, h);
      assert Live(r', h) <==> |t.observers| > 0;
    }
  }

  lemma DetachStepTasks<T>(r: Registry<T>, r': Registry<T>, h: nat, id: int, t: Task<T>)
    requires Inv(r) && id in r.idTask && h == r.idTask[id] && IdOk(r, id) && DetachStep(r, r', h, id, t)
    ensures forall g :: TaskOk(r', g)
  {
    forall g: nat ensures TaskOk(r', g) {
      DetachStepTask(r, r', h, id, t, g);
    }
  }

  /** Such a replacement keeps the key, id and task parts of the invariant. */
  lemma DetachedTaskKeeps<T>(r: Registry<T>, r': Registry<T>, id: int, t: Task<T>)
    requires Inv(r) && id in r.idTask && IdOk(r, id) && DetachStep(r, r', r.idTask[id], id, t)
    ensures (forall k :: KeyOk(r', k)) && (forall j :: IdOk(r', j)) && (forall g :: TaskOk(r', g))
    ensures Extends(r, r')
  {
    var h := r.idTask[id];
    DetachStepKeys(r, r', h, id, t);
    DetachStepIds(r, r', h, id, t);
    DetachStepTasks(r, r', h, id, t);
    assert |r'.tasks| == |r.tasks|;
    forall g | 0 <= g < |r.tasks|
      ensures r'.tasks[g].key == r.tasks[g].key && r.tasks[g].log <= r'.tasks[g].log
      ensures r.tasks[g].canceled ==> r'.tasks[g].canceled
    {
      if g == h {
        assert TaskOk(r, h);
      }
    }
  }

  /** Task.`unregisterObserver` on a valid registry, spelled out: the record of the task afterwards. */
  ghost function DetachedRecord<T>(t: Task<T>, id: int): Task<T>
    requires id in t.observers
  {
    var t1 := t.(log := t.log + [ObserverUnregistered(t.observers[id])], observers := t.observers - {id});
    if |t1.observers| == 0 then t1.Cancel() else t1
  }

  lemma DetachedShape<T>(r: Registry<T>, id: int)
    requires Inv(r) && id in r.idTask
    ensures var h := r.idTask[id]; var r' := Detached(r, id);
      IdOk(r, id) && h < |r.tasks| && id in r.tasks[h].observers &&
      var t := DetachedRecord(r.tasks[h], id);
      r' == Untagged(r, id).(idTask := r.idTask - {id}, tasks := r.tasks[h := t],
                              keyTask := if |t.observers| == 0 then r.keyTask - {t.key} else r.keyTask)
  {
    assert IdOk(r, id);
    var h := r.idTask[id];
    var t := r.tasks[h];
    var r1 := Untagged(r, id).(idTask := r.idTask - {id});
    var t1 := t.(log := t.log + [ObserverUnregistered(t.observers[id])], observers := t.observers - {id});
    var r2 := Dropped(r1, h, id);
    assert r2 == r1.(tasks := r.tasks[h := t1]);
    assert r2.tasks[h] == t1;
  }

  /** The record `unregisterObserver` leaves keeps `Ok`, extends the log, and is cancelled exactly when no observer is left. */
  lemma DetachedRecordOk<T>(t: Task<T>, id: int)
    requires t.Ok() && t.Active() && id in t.observers
    ensures var d := DetachedRecord(t, id);
      d.key == t.key && d.observers == t.observers - {id} && d.Ok() &&
      d.Active() == (|d.observers| > 0) && t.log <= d.log && d.canceled == (|d.observers| == 0)
  {
    var t1 := t.(log := t.log + [ObserverUnregistered(t.observers[id])], observers := t.observers - {id});
    CountsAppend(t.log, ObserverUnregistered(t.observers[id]));
    AppendKeepsRunsBeforeCancel(t.log, ObserverUnregistered(t.observers[id]));
    if |t1.observers| == 0 {
      CountsAppend(t1.log, Canceled);
      AppendKeepsRunsBeforeCancel(t1.log, Canceled);
      assert t.log <= t1.log <= t1.Cancel().log;
    }
  }

  lemma DetachedKeepsInv<T>(r: Registry<T>, id: int)
    requires Inv(r) && id in r.idTask
    ensures Inv(Detached(r, id)) && Extends(r, Detached(r, id))
  {
    var h := r.idTask[id];
    var r' := Detached(r, id);
    DetachedShape(r, id);
    assert TaskOk(r, h);
    DetachedRecordOk(r.tasks[h], id);
    DetachedTaskKeeps(r, r', id, DetachedRecord(r.tasks[h], id));
    WithoutKeepsValid(r.tagIds, r.idTag, {id});
  }

  /** `cancel(id)` on a valid registry unlinks exactly that id from the id and tag tables. */
  lemma DetachedTables<T>(r: Registry<T>, id: int)
    requires Inv(r) && id in r.idTask
    ensures var r' := Detached(r, id);
      r'.idTask == r.idTask - {id} && r'.idTag == r.idTag - {id} && r'.tagIds == TagsWithout(r.tagIds, {id})
  {
    DetachedShape(r, id);
  }

  lemma UnregisteredKeepsInv<T>(r: Registry<T>, h: nat)
    requires Inv(r) && Live(r, h)
    ensures Inv(Unregistered(r, h)) && Extends(r, Unregistered(r, h))
  {
    assert TaskOk(r, h);
    CountsAppend(r.tasks[h].log, Canceled);
    AppendKeepsRunsBeforeCancel(r.tasks[h].log, Canceled);
    ClearedReplacedKeepsInv(r, h, r.tasks[h].Cancel());
  }

  lemma BegunKeepsInv<T>(r: Registry<T>, h: nat)
    requires Inv(r) && h < |r.tasks|
    ensures Inv(Begun(r, h)) && Extends(r, Begun(r, h))
  {
    assert TaskOk(r, h);
    if r.tasks[h].future == Pending {
      ReplacedKeepsInv(r, h, r.tasks[h].(future := Started));
    }
  }

  lemma RanKeepsInv<T>(r: Registry<T>, h: nat, outcome: Outcome)
    requires Inv(r) && h < |r.tasks|
    ensures Inv(Ran(r, h, outcome)) && Extends(r, Ran(r, h, outcome))
  {
    var t := r.tasks[h];
    assert TaskOk(r, h);
    if t.future == Started {
      if t.canceled {
        ReplacedKeepsInv(r, h, t.(future := Done));
      } else {
        CountsAppend(t.log, BackgroundRun);
        AppendKeepsRunsBeforeCancel(t.log, BackgroundRun);
        ReplacedKeepsInv(r, h, t.(future := Done, log := t.log + [BackgroundRun],
                                  posted := Some(outcome == Finished(true))));
      }
    }
  }

  lemma DeliveredKeepsInv<T>(r: Registry<T>, h: nat)
    requires Inv(r) && h < |r.tasks| && r.tasks[h].posted.Some?
    ensures Inv(Delivered(r, h)) && Extends(r, Delivered(r, h))
  {
    var t := r.tasks[h];
    var t1 := t.(posted := None);
    assert TaskOk(r, h);
    if t.canceled {
      ReplacedKeepsInv(r, h, t1);
    } else if t.posted.value {
      CountsAppend(t.log, ResultRun(t.observers));
      AppendKeepsRunsBeforeCancel(t.log, ResultRun(t.observers));
      ClearedReplacedKeepsInv(r, h, t1.(log := t1.log + [ResultRun(t.observers)]));
    } else {
      ClearedReplacedKeepsInv(r, h, t1);
    }
  }

  // ---------------------------------------------------------------------------
  // What the invariant buys.
  // ---------------------------------------------------------------------------

  /**
   * `cancel(id)` on a valid registry always finds the observer in its task:
   * the log gains that observer's notification, followed by the cancellation
   * exactly when it was the last one, and no other task changes.
   */
  lemma DetachedEffect<T>(r: Registry<T>, id: int)
    requires Inv(r) && id in r.idTask
    ensures var h := r.idTask[id]; var r' := Detached(r, id); var t := r.tasks[h]; var t' := r'.tasks[h];
      id in t.observers && t'.observers == t.observers - {id} &&
      (t'.canceled <==> |t.observers| == 1) &&
      t'.log == t.log + [ObserverUnregistered(t.observers[id])] + (if |t.observers| == 1 then [Canceled] else []) &&
      |Detached(r, id).tasks| == |r.tasks| &&
      forall g :: 0 <= g < |r.tasks| && g != h ==> Detached(r, id).tasks[g] == r.tasks[g]
  {
    var h := r.idTask[id];
    DetachedShape(r, id);
    assert TaskOk(r, h);
    var t := r.tasks[h];
    assert |t.observers - {id}| == |t.observers| - 1;
  }

  /**
   * `cancel` runs once: after a task is cancelled, no later step of a valid
   * registry calls its `onCanceled` again.
   */
  lemma CanceledOnce<T>(r: Registry<T>, r': Registry<T>, h: nat)
    requires Inv(r) && Inv(r') && Extends(r, r') && h < |r.tasks| && r.tasks[h].canceled
    ensures forall i :: |r.tasks[h].log| <= i < |r'.tasks[h].log| ==> !r'.tasks[h].log[i].IsCancel()
  {
    assert TaskOk(r, h) && TaskOk(r', h);
    NoLaterCancel(r.tasks[h].log, r'.tasks[h].log);
  }

  /**
   * A task already cancelled never runs `doInBackground`: no later step of a
   * valid registry appends a run of the body to its log.
   */
  lemma CanceledNeverRuns<T>(r: Registry<T>, r': Registry<T>, h: nat)
    requires Inv(r) && Inv(r') && Extends(r, r') && h < |r.tasks| && r.tasks[h].canceled
    ensures forall i :: |r.tasks[h].log| <= i < |r'.tasks[h].log| ==> !r'.tasks[h].log[i].BackgroundRun?
  {
    assert TaskOk(r, h) && TaskOk(r', h);
    NoRunAfterCancel(r.tasks[h].log, r'.tasks[h].log);
  }

  /**
   * The message of a cancelled task does not `clear`: when a newer task runs
   * under the same key, delivering the old result leaves it registered,
   * whereas clearing the old task would have removed it.
   */
  lemma DeliveredSparesNewer<T>(r: Registry<T>, h: nat)
    requires Inv(r) && h < |r.tasks| && r.tasks[h].posted.Some? && r.tasks[h].canceled
    requires r.tasks[h].key in r.keyTask
    ensures r.keyTask[r.tasks[h].key] != h
    ensures Delivered(r, h).keyTask == r.keyTask
    ensures r.tasks[h].key !in Cleared(r, h).keyTask
  {
    assert TaskOk(r, h);
  }

  /** A task cancelled before the pool began it never runs its body or posts a result. */
  lemma CanceledBeforeStartNeverRuns<T>(r: Registry<T>, h: nat, outcome: Outcome)
    requires Inv(r) && h < |r.tasks| && r.tasks[h].canceled && r.tasks[h].future != Started
    ensures Begun(r, h) == r && Ran(r, h, outcome) == r
    ensures r.tasks[h].future == Cancelled ==> BackgroundRuns(r.tasks[h].log) == 0 && r.tasks[h].posted == None
  {
    assert TaskOk(r, h);
  }

  /**
   * `cancelByTag`'s loop on a valid registry: `cancel(id)` for each id of a
   * set of registered ids, in any order, unregisters exactly those ids and
   * unlinks them from their tags, keeping the invariant.
   */
  lemma {:induction false} CanceledIdsEffect<T>(r: Registry<T>, order: seq<int>, ids: set<int>)
    requires Inv(r) && Enumerates(order, ids) && ids <= r.idTask.Keys
    ensures var r' := CanceledIds(r, order);
      Inv(r') && Extends(r, r') &&
      r'.idTask == r.idTask - ids && r'.idTag == r.idTag - ids && r'.tagIds == TagsWithout(r.tagIds, ids)
  {
    if order == [] {
      assert ids == {};
      TagsWithoutNothing(r.tagIds, r.idTag);
    } else {
      var p := order[..|order| - 1];
      var x := order[|order| - 1];
      CanceledIdsEffect(r, p, ids - {x});
      var rp := CanceledIds(r, p);
      assert x in rp.idTask;
      assert CanceledIds(r, order) == Detached(rp, x) by {
        assert IdOk(rp, x);
      }
      DetachedKeepsInv(rp, x);
      DetachedTables(rp, x);
      TagsWithoutCompose(r.tagIds, ids - {x}, {x});
      RemoveAddBack(ids, x);
      MapRemoveStep(r.idTask, ids, x);
      MapRemoveStep(r.idTag, ids, x);
    }
  }

  /** One more round of `cancelByTag`'s loop: the next id is still registered, and cancelling it extends the fold. */
  lemma CancelRound<T>(r: Registry<T>, order: seq<int>, ids: set<int>, rest: set<int>, id: int)
    requires Inv(r) && ids <= r.idTask.Keys && rest <= ids && id in rest && Enumerates(order, ids - rest)
    ensures Inv(CanceledIds(r, order)) && id in CanceledIds(r, order).idTask
    ensures CanceledIds(r, order + [id]) == CanceledId(CanceledIds(r, order), id)
    ensures Enumerates(order + [id], ids - (rest - {id}))
  {
    CanceledIdsEffect(r, order, ids - rest);
    CanceledIdsSnoc(r, order, id);
    EnumeratesNext(order, ids, rest, id);
  }

  /**
   * `cancelAll`'s loop on a valid registry: `cancel(key)` for each key of a
   * set of registered keys, in any order, drops exactly those keys; each of
   * their tasks is cancelled once with its observer map kept, and every
   * other task is left as it was.
   */
  lemma {:induction false} CanceledKeysEffect<T>(r: Registry<T>, order: seq<string>, ks: set<string>)
    requires Inv(r) && Enumerates(order, ks) && ks <= r.keyTask.Keys
    ensures var r' := CanceledKeys(r, order);
      r'.keyTask == r.keyTask - ks && |r'.tasks| == |r.tasks| &&
      forall h :: 0 <= h < |r.tasks| ==>
        r'.tasks[h] == if Live(r, h) && r.tasks[h].key in ks then r.tasks[h].Cancel() else r.tasks[h]
  {
    if order == [] {
      assert ks == {};
    } else {
      var p := order[..|order| - 1];
      var k := order[|order| - 1];
      CanceledKeysEffect(r, p, ks - {k});
      var rp := CanceledKeys(r, p);
      assert KeyOk(r, k);
      var hk := r.keyTask[k];
      assert k in rp.keyTask && rp.keyTask[k] == hk;
      assert rp.tasks[hk] == r.tasks[hk];
      var r' := CanceledKeys(r, order);
      assert r' == Unregistered(rp, hk);
      assert r'.keyTask == r.keyTask - (ks - {k}) - {k};
      MapRemoveStep(r.keyTask, ks, k);
      forall h | 0 <= h < |r.tasks|
        ensures r'.tasks[h] == if Live(r, h) && r.tasks[h].key in ks then r.tasks[h].Cancel() else r.tasks[h]
      {
      }
    }
  }

  /** With no key left, no id is registered and no tag remains. */
  lemma NoKeysNoIds<T>(r: Registry<T>)
    requires Inv(r) && r.keyTask == map[]
    ensures r.idTask == map[] && r.idTag == map[] && r.tagIds == map[]
  {
    assert forall id :: id in r.idTask ==> IdOk(r, id);
    assert forall id :: id !in r.idTask;
    assert forall id :: id !in r.idTag;
    assert forall tag :: tag in r.tagIds ==> (forall id :: id !in r.tagIds[tag]);
    assert forall tag :: tag !in r.tagIds;
  }

  // ---------------------------------------------------------------------------
  // The registry object of the source.
  // ---------------------------------------------------------------------------

  class TaskManager<T> {
    /** `mKeyTaskMap`. */
    var keyTask: map<string, nat>
    /** `mIdTaskMap`. */
    var idTask: map<int, nat>
    /** `mTagIdsMap`. */
    var tagIds: map<string, set<int>>
    /** `mIdTagMap`. */
    var idTag: map<int, string>
    /** Every Task object built so far, by index. */
    var tasks: seq<Task<T>>

    ghost function Abs(): Registry<T>
      reads this
    {
      Registry(keyTask, idTask, tagIds, idTag, tasks)
    }

    ghost predicate Valid()
      reads this
    {
      Inv(Abs())
    }

    constructor ()
      ensures Valid() && Abs() == Registry(map[], map[], map[], map[], [])
    {
      keyTask := map[];
      idTask := map[];
      tagIds := map[];
      idTag := map[];
      tasks := [];
    }

    /** `generateObserverId`: the lowest non-negative id not in use. */
    method GenerateObserverId() returns (id: int)
      ensures id >= 0 && id !in idTask
      ensures forall j :: 0 <= j < id ==> j in idTask
    {
      id := 0;
      while id in idTask
        invariant id >= 0
        invariant forall j :: 0 <= j < id ==> j in idTask
        decreases |idTask.Keys| - id
      {
        CountBelow(idTask.Keys, id + 1);
        id := id + 1;
      }
    }

    /** `isRunning`: a non-empty key with a live task. */
    function IsRunning(key: string): (running: bool)
      requires Valid()
      reads this
      ensures running <==> key != "" && exists h :: 0 <= h < |tasks| && Live(Abs(), h) && tasks[h].key == key
    {
      assert key in keyTask ==> KeyOk(Abs(), key) && Live(Abs(), keyTask[key]);
      key != "" && key in keyTask
    }

    /** Task.`removeTagId`: unlink one id from its tag, dropping the tag once its set is empty. */
    method RemoveTagId(id: int)
      requires TagsValid(tagIds, idTag)
      modifies this
      ensures Abs() == Untagged(old(Abs()), id)
    {
      if id !in idTag {
        WithoutUntagged(tagIds, idTag, id);
        return;
      }
      var tag := idTag[id];
      WithoutTagged(tagIds, idTag, id);
      idTag := idTag - {id};
      var ids := tagIds[tag] - {id};
      if ids == {} {
        tagIds := tagIds - {tag};
      } else {
        tagIds := tagIds[tag := ids];
      }
    }

    /** Task.`clear`. */
    method Clear(h: nat)
      requires TagsValid(tagIds, idTag) && h < |tasks|
      modifies this
      ensures Abs() == Cleared(old(Abs()), h)
    {
      var t := tasks[h];
      keyTask := keyTask - {t.key};
      ghost var r1 := Abs();
      var rest := t.observers.Keys;
      ghost var done: set<int> := {};
      IdsRemovedNothing(r1);
      while exists x :: x in rest
        invariant rest + done == t.observers.Keys && rest !! done
        invariant Abs() == IdsRemoved(r1, done)
        invariant TagsValid(tagIds, idTag)
        decreases rest
      {
        var id :| id in rest;
        idTask := idTask - {id};
        RemoveTagId(id);
        IdsRemovedStep(r1, done, id);
        WithoutKeepsValid(r1.tagIds, r1.idTag, done + {id});
        rest := rest - {id};
        done := done + {id};
      }
      assert done == t.observers.Keys;
    }

    /** Task.`cancel`. */
    method CancelTask(h: nat)
      requires h < |tasks|
      modifies this
      ensures Abs() == old(Abs().(tasks := tasks[h := tasks[h].Cancel()]))
    {
      var t := tasks[h];
      t := t.(canceled := true);
      if t.future == Pending {
        t := t.(future := Cancelled);
      }
      t := t.(log := t.log + [Canceled]);
      tasks := tasks[h := t];
    }

    /** `mKeyTaskMap.get(key)`, building and starting a task when there is none. */
    method Attach(key: string) returns (h: nat)
      requires Valid()
      modifies this
      ensures Abs() == WithTask(old(Abs()), key)
      ensures key in keyTask && h == keyTask[key] < |tasks|
    {
      if key in keyTask {
        h := keyTask[key];
        assert KeyOk(Abs(), key);
      } else {
        h := |tasks|;
        tasks := tasks + [NewTask(key)];
        keyTask := keyTask[key := h];
      }
    }

    /** Task.`registerObserver`. */
    method RegisterObserver(h: nat, id: int, observer: Option<T>)
      requires h < |tasks|
      modifies this
      ensures Abs() == Registered(old(Abs()), h, id, observer)
    {
      tasks := tasks[h := tasks[h].(observers := tasks[h].observers[id := observer])];
      idTask := idTask[id := h];
    }

    /** The tag links of `start`. */
    method LinkTag(id: int, tag: string)
      modifies this
      ensures Abs() == Tagged(old(Abs()), id, tag)
    {
      if tag != "" {
        idTag := idTag[id := tag];
        var ids := if tag in tagIds then tagIds[tag] else {};
        tagIds := tagIds[tag := ids + {id}];
      }
    }

    /**
     * `start`: an empty key or a missing builder gives -1 and changes
     * nothing; otherwise the lowest free id, registered with the key's task
     * (built and submitted when there is none) and linked to a non-empty tag.
     */
    method Start(key: string, tag: string, observer: Option<T>, hasBuilder: bool) returns (id: int)
      requires Valid()
      modifies this
      ensures Valid() && Extends(old(Abs()), Abs())
      ensures key == "" || !hasBuilder ==> id == -1 && Abs() == old(Abs())
      ensures key != "" && hasBuilder ==>
        id >= 0 && id !in old(idTask) && (forall j :: 0 <= j < id ==> j in old(idTask)) &&
        Abs() == Joined(old(Abs()), key, tag, observer, id)
    {
      if key == "" || !hasBuilder {
        return -1;
      }
      id := GenerateObserverId();
      JoinedKeepsInv(Abs(), key, tag, observer, id);
      var h := Attach(key);
      RegisterObserver(h, id, observer);
      LinkTag(id, tag);
    }

    /** Task.`unregisterObserver`. */
    method UnregisterObserver(h: nat, id: int)
      requires Valid() && id in idTask && idTask[id] == h
      modifies this
      ensures Valid() && Extends(old(Abs()), Abs())
      ensures Abs() == Detached(old(Abs()), id)
    {
      DetachedKeepsInv(Abs(), id);
      assert IdOk(Abs(), id);
      RemoveTagId(id);
      idTask := idTask - {id};
      var t := tasks[h];
      if id in t.observers {
        tasks := tasks[h := t.(log := t.log + [ObserverUnregistered(t.observers[id])], observers := t.observers - {id})];
      }
      if |tasks[h].observers| == 0 {
        keyTask := keyTask - {t.key};
        CancelTask(h);
      }
    }

    /** Task.`unregisterAll`. */
    method UnregisterAll(h: nat)
      requires Valid() && Live(Abs(), h)
      modifies this
      ensures Valid() && Extends(old(Abs()), Abs())
      ensures Abs() == Unregistered(old(Abs()), h)
    {
      UnregisteredKeepsInv(Abs(), h);
      Clear(h);
      CancelTask(h);
    }

    /** `cancel(int id)`: detach one observer; false for an unknown id. */
    method Cancel(id: int) returns (found: bool)
      requires Valid()
      modifies this
      ensures Valid() && Extends(old(Abs()), Abs())
      ensures found <==> id in old(idTask)
      ensures Abs() == if found then Detached(old(Abs()), id) else old(Abs())
    {
      if id in idTask {
        UnregisterObserver(idTask[id], id);
        found := true;
      } else {
        found := false;
      }
    }

    /** `cancel(String key)`: `unregisterAll` on the key's task; false for an empty or unknown key. */
    method CancelKey(key: string) returns (found: bool)
      requires Valid()
      modifies this
      ensures Valid() && Extends(old(Abs()), Abs())
      ensures found <==> key != "" && key in old(keyTask)
      ensures found ==> old(keyTask[key]) < |old(tasks)| && Abs() == Unregistered(old(Abs()), old(keyTask[key]))
      ensures !found ==> Abs() == old(Abs())
    {
      if key == "" {
        return false;
      }
      if key in keyTask {
        assert KeyOk(Abs(), key);
        UnregisterAll(keyTask[key]);
        return true;
      }
      return false;
    }

    /**
     * `cancelByTag`: detach every id of a snapshot of the tag's set. It is
     * true exactly when the tag exists, since each snapshot id is still
     * registered when its turn comes.
     */
    method CancelByTag(tag: string) returns (result: bool, ghost order: seq<int>)
      requires Valid()
      modifies this
      ensures Valid() && Extends(old(Abs()), Abs())
      ensures result <==> tag in old(tagIds)
      ensures tag !in tagIds
      ensures tag !in old(tagIds) ==> Abs() == old(Abs())
      ensures tag in old(tagIds) ==>
        Enumerates(order, old(tagIds)[tag]) && Abs() == CanceledIds(old(Abs()), order) &&
        idTask == old(idTask) - old(tagIds)[tag] && idTag == old(idTag) - old(tagIds)[tag] &&
        tagIds == TagsWithout(old(tagIds), old(tagIds)[tag])
    {
      order := [];
      if tag !in tagIds {
        return false, order;
      }
      result := true;
      var ids := tagIds[tag];
      var rest := ids;
      assert ids <= idTask.Keys by {
        forall id | id in ids ensures id in idTask {
          assert id in idTag;
        }
      }
      ghost var r0 := Abs();
      order := CancelIds(ids);
      CanceledIdsEffect(r0, order, ids);
    }

    /** The loop of `cancelByTag`: `cancel(id)` for each id of the snapshot, in the set's iteration order. */
    method CancelIds(ids: set<int>) returns (ghost order: seq<int>)
      requires Valid() && ids <= idTask.Keys
      modifies this
      ensures Enumerates(order, ids) && Abs() == CanceledIds(old(Abs()), order)
    {
      ghost var r0 := Abs();
      var rest := ids;
      order := [];
      while exists x :: x in rest
        invariant rest <= ids
        invariant Enumerates(order, ids - rest) && Abs() == CanceledIds(r0, order)
        decreases rest
      {
        var id :| id in rest;
        CancelRound(r0, order, ids, rest, id);
        CancelStep(id);
        order := order + [id];
        rest := rest - {id};
      }
      assert ids - rest == ids;
    }

    /** One round of `cancelByTag`: `cancel(id)` on a registered id, which unlinks exactly that id. */
    method CancelStep(id: int)
      requires Valid() && id in idTask
      modifies this
      ensures Valid() && Extends(old(Abs()), Abs())
      ensures Abs() == CanceledId(old(Abs()), id)
      ensures idTask == old(idTask) - {id} && idTag == old(idTag) - {id}
      ensures tagIds == TagsWithout(old(tagIds), {id})
    {
      assert IdOk(Abs(), id);
      var found := Cancel(id);
    }

    /**
     * `cancelAll`: `cancel(key)` for each key of a snapshot of the key
     * table, in the order of the ghost `order`; every table ends empty.
     */
    method CancelAll() returns (ghost order: seq<string>)
      requires Valid()
      modifies this
      ensures Valid() && Extends(old(Abs()), Abs())
      ensures Enumerates(order, old(keyTask).Keys) && Abs() == CanceledKeys(old(Abs()), order)
      ensures keyTask == map[] && idTask == map[] && tagIds == map[] && idTag == map[]
      ensures |tasks| == |old(tasks)|
      ensures forall h :: 0 <= h < |tasks| ==>
        tasks[h] == if Live(old(Abs()), h) then old(tasks)[h].Cancel() else old(tasks)[h]
      ensures forall k :: k in old(keyTask) ==> old(keyTask)[k] < |tasks| && tasks[old(keyTask)[k]].canceled
    {
      var keys := keyTask.Keys;
      var rest := keys;
      order := [];
      while exists x :: x in rest
        invariant Valid() && Extends(old(Abs()), Abs())
        invariant rest <= keys && keys == old(keyTask).Keys
        invariant Enumerates(order, keys - rest) && Abs() == CanceledKeys(old(Abs()), order)
        decreases rest
      {
        var key :| key in rest;
        CanceledKeysSnoc(old(Abs()), order, key);
        var _ := CancelKey(key);
        EnumeratesNext(order, keys, rest, key);
        order := order + [key];
        rest := rest - {key};
      }
      assert keys - rest == keys;
      CanceledKeysEffect(old(Abs()), order, keys);
      forall h | 0 <= h < |old(tasks)| && Live(old(Abs()), h) ensures old(tasks)[h].key in keys { }
      assert keyTask == map[];
      NoKeysNoIds(Abs());
      forall k | k in old(keyTask) ensures old(keyTask)[k] < |tasks| && tasks[old(keyTask)[k]].canceled {
        assert KeyOk(old(Abs()), k);
      }
    }

    /** The pool begins the task's `FutureTask`. */
    method Begin(h: nat)
      requires Valid() && h < |tasks|
      modifies this
      ensures Valid() && Extends(old(Abs()), Abs())
      ensures Abs() == Begun(old(Abs()), h)
    {
      BegunKeepsInv(Abs(), h);
      if tasks[h].future == Pending {
        tasks := tasks[h := tasks[h].(future := Started)];
      }
    }

    /** Task.`run`: a cancelled task returns at once; otherwise `doInBackground`, then `runResult`. */
    method Run(h: nat, outcome: Outcome)
      requires Valid() && h < |tasks|
      modifies this
      ensures Valid() && Extends(old(Abs()), Abs())
      ensures Abs() == Ran(old(Abs()), h, outcome)
    {
      RanKeepsInv(Abs(), h, outcome);
      var t := tasks[h];
      if t.future != Started {
        return;
      }
      t := t.(future := Done);
      if t.canceled {
        tasks := tasks[h := t];
        return;
      }
      t := t.(log := t.log + [BackgroundRun]);
      t := t.(posted := Some(outcome == Finished(true)));
      tasks := tasks[h := t];
    }

    /** The posted half of `runResult`. */
    method RunResult(h: nat)
      requires Valid() && h < |tasks| && tasks[h].posted.Some?
      modifies this
      ensures Valid() && Extends(old(Abs()), Abs())
      ensures Abs() == Delivered(old(Abs()), h)
    {
      DeliveredKeepsInv(Abs(), h);
      var t := tasks[h];
      var result := t.posted.value;
      t := t.(posted := None);
      if t.canceled {
        tasks := tasks[h := t];
        return;
      }
      Clear(h);
      if result {
        t := t.(log := t.log + [ResultRun(t.observers)]);
      }
      tasks := tasks[h := t];
    }
  }
}
