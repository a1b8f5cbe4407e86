/**
 * The task registry of the library package
 * (library/MultiObserverTaskManager.java): tasks keyed by a non-empty string,
 * joined by non-null observers that each receive the lowest free integer id,
 * detached one by one or all at once. A cancelled task reports through
 * `onCanceled` when its body has started and through `onCanceledBeforeStart`
 * otherwise.
 *
 * Every public call is one atomic step (the source checks that it runs on the
 * main thread), and so are the two halves of `run`: the check of the flag
 * under the task's monitor, and the body with the posting of `runResult`.
 * Task objects are records in the registry's `tasks` table, addressed by
 * their index. User hooks are not run: each call is recorded in the log.
 */
module LibraryTaskManager {
  import opened Common
  import opened Hooks

  /** How `doInBackground` ended: normally (having called `setPostResult` or not), or by an exception. */
  datatype Outcome = Finished(setPostResult: bool) | Threw

  /**
   * Where `run` has got to: not entered (`mStarted` false), inside
   * `doInBackground`, the `runResult` message posted (with or without a
   * result runnable), or that message handled.
   */
  datatype Phase = Idle | Running | Posted(result: bool) | Handled

  /** A `Task`: its key, `mObserverMap`, `mCanceled`, how far `run` has got, and the hook log. */
  datatype Task<T> = Task(key: string, observers: map<int, T>, canceled: bool, phase: Phase, log: seq<Callback<T>>)
  {
    /** `mStarted`. */
    predicate Started() {
      !phase.Idle?
    }

    /** Task.`cancel`: set the flag, then `onCanceled` if started, `onCanceledBeforeStart` if not. */
    function Cancel(): Task<T> {
      this.(canceled := true, log := log + [if Started() then Canceled else CanceledBeforeStart])
    }

    /** Neither cancelled nor delivered: the task should be reachable under its key. */
    predicate Active() {
      !canceled && !phase.Handled?
    }

    /**
     * One cancellation hook per cancellation, `onCanceledBeforeStart` exactly
     * when it came before `run` set `mStarted`, and the body entered once,
     * before any cancellation.
     */
    ghost predicate Ok() {
      Cancels(log) == (if canceled then 1 else 0) &&
      CancelsBeforeStart(log) == (if canceled && !Started() then 1 else 0) &&
      BackgroundRuns(log) == (if Started() then 1 else 0) &&
      RunsBeforeCancel(log)
    }
  }

  /** `builder.build()` and Task.`start`: a fresh task, submitted to the pool. */
  function NewTask<T>(key: string): Task<T> {
    Task(key, map[], false, Idle, [])
  }

  /** The observers a result runnable would see, in the form the hook log records. */
  function Present<T>(m: map<int, T>): (p: map<int, Option<T>>)
    ensures p.Keys == m.Keys && forall id :: id in m ==> p[id] == Some(m[id])
  {
    map id | id in m :: Some(m[id])
  }

  /** The registry's two tables and every task it has built. */
  datatype Registry<T> = Registry(keyTask: map<string, nat>, idTask: map<int, nat>, tasks: seq<Task<T>>)

  function Empty<T>(): Registry<T> {
    Registry(map[], map[], [])
  }

  /** Task h is live while the key table maps its key to it. */
  ghost predicate Live<T>(r: Registry<T>, h: nat) {
    h < |r.tasks| && r.tasks[h].key in r.keyTask && r.keyTask[r.tasks[h].key] == h
  }

  /** Key k, when registered, is non-empty and maps to a task built under k. */
  ghost predicate KeyOk<T>(r: Registry<T>, k: string) {
    k in r.keyTask ==> k != "" && r.keyTask[k] < |r.tasks| && r.tasks[r.keyTask[k]].key == k
  }

  /** Id id, when registered, belongs to a live task that holds it. */
  ghost predicate IdOk<T>(r: Registry<T>, id: int) {
    id in r.idTask ==> id >= 0 && Live(r, r.idTask[id]) && id in r.tasks[r.idTask[id]].observers
  }

  /** Task h is live exactly while active; when live it has observers, each registered to it. */
  ghost predicate TaskOk<T>(r: Registry<T>, h: nat) {
    h < |r.tasks| ==>
      r.tasks[h].Ok() && (Live(r, h) <==> r.tasks[h].Active()) &&
      (Live(r, h) ==>
         |r.tasks[h].observers| > 0 &&
         forall id :: id in r.tasks[h].observers ==> id in r.idTask && r.idTask[id] == h)
  }

  /** At most one task per key (a map), and the parts above hold throughout. */
  ghost predicate Inv<T>(r: Registry<T>) {
    (forall k :: KeyOk(r, k)) && (forall id :: IdOk(r, id)) && (forall h :: TaskOk(r, h))
  }

  /** What a step can do to tasks already built: keep their keys, only append to their logs, never clear a cancellation. */
  ghost predicate Extends<T>(r: Registry<T>, r': Registry<T>) {
    |r.tasks| <= |r'.tasks| &&
    forall h :: 0 <= h < |r.tasks| ==>
      r'.tasks[h].key == r.tasks[h].key && r.tasks[h].log <= r'.tasks[h].log &&
      (r.tasks[h].canceled ==> r'.tasks[h].canceled)
  }

  lemma EmptyInv<T>()
    ensures Inv(Empty<T>())
  {
  }

  // ---------------------------------------------------------------------------
  // The steps, on values. The methods of TaskManager below perform them in place.
  // ---------------------------------------------------------------------------

  /** `mKeyTaskMap.get(key)`, or `builder.build()` and Task.`start` when the key has no task. */
  ghost function WithTask<T>(r: Registry<T>, key: string): Registry<T> {
    if key in r.keyTask then r
    else r.(keyTask := r.keyTask[key := |r.tasks|], tasks := r.tasks + [NewTask(key)])
  }

  /** `start` once the id is chosen: join the key's task or build one, then Task.`registerObserver`. */
  ghost function Joined<T>(r: Registry<T>, key: string, observer: T, id: int): Registry<T>
    requires KeyOk(r, key)
  {
    var r1 := WithTask(r, key);
    var h := r1.keyTask[key];
    r1.(tasks := r1.tasks[h := r1.tasks[h].(observers := r1.tasks[h].observers[id := observer])],
        idTask := r1.idTask[id := h])
  }

  /** Task.`unregisterObserver`: unlink id and drop its observer; with none left, drop the key and cancel. */
  ghost function Detached<T>(r: Registry<T>, id: int): Registry<T>
    requires id in r.idTask && r.idTask[id] < |r.tasks|
  {
    var h := r.idTask[id];
    var t := r.tasks[h].(observers := r.tasks[h].observers - {id});
    if |t.observers| == 0
    then r.(idTask := r.idTask - {id}, keyTask := r.keyTask - {t.key}, tasks := r.tasks[h := t.Cancel()])
    else r.(idTask := r.idTask - {id}, tasks := r.tasks[h := t])
  }

  /** Task.`clear`: drop the key and every id of the task, keeping its observer map. */
  ghost function Cleared<T>(r: Registry<T>, h: nat): Registry<T>
    requires h < |r.tasks|
  {
    r.(keyTask := r.keyTask - {r.tasks[h].key}, idTask := r.idTask - r.tasks[h].observers.Keys)
  }

  /** Task.`unregisterAll`: `clear`, then `cancel`. */
  ghost function Unregistered<T>(r: Registry<T>, h: nat): Registry<T>
    requires h < |r.tasks|
  {
    Cleared(r, h).(tasks := r.tasks[h := r.tasks[h].Cancel()])
  }

  /** `cancelEx(String key)`: `unregisterAll` on the key's task; an empty or unknown key changes nothing. */
  ghost function CanceledKey<T>(r: Registry<T>, key: string): Registry<T> {
    if key != "" && key in r.keyTask && r.keyTask[key] < |r.tasks| then Unregistered(r, r.keyTask[key]) else r
  }

  /** `cancelEx(key)` for each key of order in turn, the loop of `cancelAllEx`. */
  ghost function CanceledKeys<T>(r: Registry<T>, order: seq<string>): Registry<T>
    decreases |order|
  {
    if order == [] then r else CanceledKey(CanceledKeys(r, order[..|order| - 1]), order[|order| - 1])
  }

  lemma CanceledKeysSnoc<T>(r: Registry<T>, order: seq<string>, key: string)
    ensures CanceledKeys(r, order + [key]) == CanceledKey(CanceledKeys(r, order), key)
  {
    assert (order + [key])[..|order|] == order;
  }

  /** The monitor-held start of Task.`run`: return if cancelled, else set `mStarted` and enter `doInBackground`. */
  ghost function Begun<T>(r: Registry<T>, h: nat): Registry<T>
    requires h < |r.tasks|
  {
    var t := r.tasks[h];
    if t.canceled || t.Started() then r
    else r.(tasks := r.tasks[h := t.(phase := Running, log := t.log + [BackgroundRun])])
  }

  /** The rest of Task.`run`: the body returns (an exception nulls the post-result) and `runResult` posts its message. */
  ghost function Completed<T>(r: Registry<T>, h: nat, outcome: Outcome): Registry<T>
    requires h < |r.tasks| && r.tasks[h].phase.Running?
  {
    r.(tasks := r.tasks[h := r.tasks[h].(phase := Posted(outcome == Finished(true)))])
  }

  /** The posted message of `runResult`: `clear` unless cancelled, then the result runnable, if any, either way. */
  ghost function Delivered<T>(r: Registry<T>, h: nat): Registry<T>
    requires h < |r.tasks| && r.tasks[h].phase.Posted?
  {
    var t := r.tasks[h];
    var t1 := t.(phase := Handled, log := t.log + if t.phase.result then [ResultRun(Present(t.observers))] else []);
    if t.canceled then r.(tasks := r.tasks[h := t1]) else Cleared(r, h).(tasks := r.tasks[h := t1])
  }

  // ---------------------------------------------------------------------------
  // Every step keeps the invariant and extends the history.
  // ---------------------------------------------------------------------------

  /** Replacing task h by a record with the same key and observers, exactly as active as before, keeps the invariant. */
  lemma ReplacedKeepsInv<T>(r: Registry<T>, h: nat, t: Task<T>)
    requires Inv(r) && h < |r.tasks|
    requires t.key == r.tasks[h].key && t.observers == r.tasks[h].observers
    requires t.Ok() && t.Active() == r.tasks[h].Active()
    requires r.tasks[h].log <= t.log && (r.tasks[h].canceled ==> t.canceled)
    ensures Inv(r.(tasks := r.tasks[h := t])) && Extends(r, r.(tasks := r.tasks[h := t]))
  {
    var r' := r.(tasks := r.tasks[h := t]);
    forall g: nat | g < |r.tasks| ensures Live(r', g) == Live(r, g) {
    }
    forall k ensures KeyOk(r', k) {
      assert KeyOk(r, k);
    }
    forall id ensures IdOk(r', id) {
      assert IdOk(r, id);
    }
    forall g: nat ensures TaskOk(r', g) {
      assert TaskOk(r, g);
    }
  }

  /** Clearing live task h and replacing it by an inactive record with the same key and observers keeps the invariant. */
  lemma ClearedReplacedKeepsInv<T>(r: Registry<T>, h: nat, t: Task<T>)
    requires Inv(r) && Live(r, h)
    requires t.key == r.tasks[h].key && t.observers == r.tasks[h].observers
    requires t.Ok() && !t.Active()
    requires r.tasks[h].log <= t.log && (r.tasks[h].canceled ==> t.canceled)
    ensures Inv(Cleared(r, h).(tasks := r.tasks[h := t]))
    ensures Extends(r, Cleared(r, h).(tasks := r.tasks[h := t]))
  {
    var ids := r.tasks[h].observers.Keys;
    var r' := Cleared(r, h).(tasks := r.tasks[h := t]);
    assert TaskOk(r, h);
    forall g: nat | g < |r.tasks| && g != h ensures Live(r', g) == Live(r, g) {
    }
    forall k ensures KeyOk(r', k) {
      assert KeyOk(r, k);
    }
    forall id ensures IdOk(r', id) {
      assert IdOk(r, id);
    }
    forall g: nat ensures TaskOk(r', g) {
      assert TaskOk(r, g);
      if g < |r.tasks| && g != h && Live(r, g) {
        forall id | id in r'.tasks[g].observers ensures id in r'.idTask && r'.idTask[id] == g {
          assert id !in ids;
        }
      }
    }
  }

  /** Registering a fresh id with live task h keeps the invariant. */
  lemma JoinLive<T>(r: Registry<T>, r': Registry<T>, h: nat, id: int, observer: T)
    requires Inv(r) && Live(r, h) && id >= 0 && id !in r.idTask
    requires r'.keyTask == r.keyTask && r'.idTask == r.idTask[id := h]
    requires r'.tasks == r.tasks[h := r.tasks[h].(observers := r.tasks[h].observers[id := observer])]
    ensures Inv(r') && Extends(r, r')
  {
    forall g: nat | g < |r.tasks| ensures Live(r', g) == Live(r, g) {
    }
    forall k ensures KeyOk(r', k) {
      assert KeyOk(r, k);
    }
    forall j ensures IdOk(r', j) {
      assert IdOk(r, j);
    }
    forall g: nat ensures TaskOk(r', g) {
      assert TaskOk(r, g);
      if g == h {
        assert id in r'.tasks[g].observers;
      }
    }
  }

  /** Building a task for an unregistered key with one fresh id keeps the invariant. */
  lemma JoinNew<T>(r: Registry<T>, r': Registry<T>, key: string, id: int, observer: T)
    requires Inv(r) && key != "" && key !in r.keyTask && id >= 0 && id !in r.idTask
    requires r'.keyTask == r.keyTask[key := |r.tasks|] && r'.idTask == r.idTask[id := |r.tasks|]
    requires r'.tasks == r.tasks + [NewTask(key).(observers := map[id := observer])]
    ensures Inv(r') && Extends(r, r')
  {
    var h := |r.tasks|;
    forall g: nat | g < h ensures Live(r', g) == Live(r, g) {
      if Live(r', g) {
        assert r.tasks[g].key != key;
      }
    }
    assert Live(r', h);
    forall k ensures KeyOk(r', k) {
      assert KeyOk(r, k);
    }
    forall j ensures IdOk(r', j) {
      assert IdOk(r, j);
    }
    forall g: nat ensures TaskOk(r', g) {
      assert TaskOk(r, g);
    }
  }

  lemma JoinedKeepsInv<T>(r: Registry<T>, key: string, observer: T, id: int)
    requires Inv(r) && key != "" && id >= 0 && id !in r.idTask
    ensures Inv(Joined(r, key, observer, id)) && Extends(r, Joined(r, key, observer, id))
  {
    var r' := Joined(r, key, observer, id);
    if key in r.keyTask {
      assert KeyOk(r, key);
      JoinLive(r, r', r.keyTask[key], id, observer);
    } else {
      assert NewTask<T>(key).observers[id := observer] == map[id := observer];
      JoinNew(r, r', key, id, observer);
    }
  }

  /**
   * r' is r with live task h, which held id, replaced by t: t drops id from
   * the observers and is live exactly while it keeps one, and only id is
   * unregistered.
   */
  ghost predicate DetachStep<T>(r: Registry<T>, r': Registry<T>, h: nat, id: int, t: Task<T>) {
    h < |r.tasks| && t.key == r.tasks[h].key && t.observers == r.tasks[h].observers - {id} &&
    t.Ok() && t.Active() == (|t.observers| > 0) && r.tasks[h].log <= t.log &&
    r'.idTask == r.idTask - {id} && r'.tasks == r.tasks[h := t] &&
    r'.keyTask == if |t.observers| == 0 then r.keyTask - {t.key} else r.keyTask
  }

  lemma DetachStepKeys<T>(r: Registry<T>, r': Registry<T>, h: nat, id: int, t: Task<T>)
    requires Inv(r) && id in r.idTask && h == r.idTask[id] && Live(r, h) && DetachStep(r, r', h, id, t)
    ensures forall k :: KeyOk(r', k)
  {
    forall k ensures KeyOk(r', k) {
      assert KeyOk(r, k);
    }
  }

  lemma DetachStepIds<T>(r: Registry<T>, r': Registry<T>, h: nat, id: int, t: Task<T>)
    requires Inv(r) && id in r.idTask && h == r.idTask[id] && Live(r, h) && DetachStep(r, r', h, id, t)
    ensures forall j :: IdOk(r', j)
  {
    assert TaskOk(r, h);
    forall g: nat | g < |r.tasks| && g != h ensures Live(r', g) == Live(r, g) {
    }
    forall j ensures IdOk(r', j) {
      assert IdOk(r, j);
      if j in r'.idTask && r.idTask[j] == h {
        assert j in t.observers;
      }
    }
  }

  lemma DetachStepTask<T>(r: Registry<T>, r': Registry<T>, h: nat, id: int, t: Task<T>, g: nat)
    requires Inv(r) && id in r.idTask && h == r.idTask[id] && Live(r, h) && DetachStep(r, r', h, id, t)
    ensures TaskOk(r', g)
  {
    assert TaskOk(r, g);
    if g < |r.tasks| && g != h {
      assert r'.tasks[g] == r.tasks[g];
      assert Live(r', g) == Live(r, g);
    } else if g == h {
      assert Live(r', h) <==> |t.observers| > 0;
    }
  }

  /** Such a replacement keeps the invariant and extends the history. */
  lemma DetachedTaskKeeps<T>(r: Registry<T>, r': Registry<T>, h: nat, id: int, t: Task<T>)
    requires Inv(r) && id in r.idTask && h == r.idTask[id] && Live(r, h) && DetachStep(r, r', h, id, t)
    ensures Inv(r') && Extends(r, r')
  {
    DetachStepKeys(r, r', h, id, t);
    DetachStepIds(r, r', h, id, t);
    forall g: nat ensures TaskOk(r', g) {
      DetachStepTask(r, r', h, id, t, g);
    }
    assert TaskOk(r, h);
    forall g | 0 <= g < |r.tasks|
      ensures r'.tasks[g].key == r.tasks[g].key && r.tasks[g].log <= r'.tasks[g].log
      ensures r.tasks[g].canceled ==> r'.tasks[g].canceled
    {
    }
  }

  /** Cancelling an active task keeps `Ok`: one hook, chosen by `mStarted`, appended to the log. */
  lemma CancelOk<T>(t: Task<T>)
    requires t.Ok() && t.Active()
    ensures t.Cancel().Ok() && t.log <= t.Cancel().log
  {
    var c: Callback<T> := if t.Started() then Canceled else CanceledBeforeStart;
    CountsAppend(t.log, c);
    AppendKeepsRunsBeforeCancel(t.log, c);
  }

  lemma DetachedKeepsInv<T>(r: Registry<T>, id: int)
    requires Inv(r) && id in r.idTask
    ensures IdOk(r, id)
    ensures Inv(Detached(r, id)) && Extends(r, Detached(r, id))
  {
    assert IdOk(r, id);
    var h := r.idTask[id];
    assert TaskOk(r, h);
    var t := r.tasks[h].(observers := r.tasks[h].observers - {id});
    if |t.observers| == 0 {
      CancelOk(t);
      DetachedTaskKeeps(r, Detached(r, id), h, id, t.Cancel());
    } else {
      DetachedTaskKeeps(r, Detached(r, id), h, id, t);
    }
  }

  lemma UnregisteredKeepsInv<T>(r: Registry<T>, h: nat)
    requires Inv(r) && Live(r, h)
    ensures Inv(Unregistered(r, h)) && Extends(r, Unregistered(r, h))
  {
    assert TaskOk(r, h);
    CancelOk(r.tasks[h]);
    ClearedReplacedKeepsInv(r, h, r.tasks[h].Cancel());
  }

  lemma BegunKeepsInv<T>(r: Registry<T>, h: nat)
    requires Inv(r) && h < |r.tasks|
    ensures Inv(Begun(r, h)) && Extends(r, Begun(r, h))
  {
    var t := r.tasks[h];
    assert TaskOk(r, h);
    if !t.canceled && !t.Started() {
      CountsAppend(t.log, BackgroundRun);
      AppendKeepsRunsBeforeCancel(t.log, BackgroundRun);
      ReplacedKeepsInv(r, h, t.(phase := Running, log := t.log + [BackgroundRun]));
    }
  }

  lemma CompletedKeepsInv<T>(r: Registry<T>, h: nat, outcome: Outcome)
    requires Inv(r) && h < |r.tasks| && r.tasks[h].phase.Running?
    ensures Inv(Completed(r, h, outcome)) && Extends(r, Completed(r, h, outcome))
  {
    assert TaskOk(r, h);
    ReplacedKeepsInv(r, h, r.tasks[h].(phase := Posted(outcome == Finished(true))));
  }

  lemma DeliveredKeepsInv<T>(r: Registry<T>, h: nat)
    requires Inv(r) && h < |r.tasks| && r.tasks[h].phase.Posted?
    ensures Inv(Delivered(r, h)) && Extends(r, Delivered(r, h))
  {
    var t := r.tasks[h];
    assert TaskOk(r, h);
    var c := ResultRun(Present(t.observers));
    CountsAppend(t.log, c);
    AppendKeepsRunsBeforeCancel(t.log, c);
    var t1 := t.(phase := Handled, log := t.log + if t.phase.result then [c] else []);
    assert t.log + [] == t.log;
    if t.canceled {
      ReplacedKeepsInv(r, h, t1);
    } else {
      ClearedReplacedKeepsInv(r, h, t1);
    }
  }

  // ---------------------------------------------------------------------------
  // What the invariant buys.
  // ---------------------------------------------------------------------------

  /**
   * `cancelEx(id)` on a valid registry always finds the observer in its
   * task: it leaves the observer map, and exactly when it was the last one
   * the key is dropped and the cancellation hook is logged; no other task
   * changes.
   */
  lemma DetachedEffect<T>(r: Registry<T>, id: int)
    requires Inv(r) && id in r.idTask
    ensures IdOk(r, id)
    ensures var h := r.idTask[id]; var r' := Detached(r, id); var t := r.tasks[h]; var t' := r'.tasks[h];
      id in t.observers && t'.observers == t.observers - {id} && id !in r'.idTask &&
      (t'.canceled <==> |t.observers| == 1) &&
      (t.key in r'.keyTask <==> |t.observers| > 1) &&
      t'.log == t.log + (if |t.observers| == 1 then [if t.Started() then Canceled else CanceledBeforeStart] else []) &&
      |r'.tasks| == |r.tasks| &&
      forall g :: 0 <= g < |r.tasks| && g != h ==> r'.tasks[g] == r.tasks[g]
  {
    assert IdOk(r, id);
    var h := r.idTask[id];
    assert TaskOk(r, h);
    var t := r.tasks[h];
    assert |t.observers - {id}| == |t.observers| - 1;
  }

  /**
   * Task.`cancel` calls exactly one hook: `onCanceled` when `run` has set
   * `mStarted`, `onCanceledBeforeStart` when it has not.
   */
  lemma CancelHooks<T>(t: Task<T>)
    requires t.Ok() && t.Active()
    ensures Cancels(t.Cancel().log) == Cancels(t.log) + 1
    ensures CancelsBeforeStart(t.Cancel().log) == (if t.Started() then 0 else 1)
    ensures t.Cancel().log[|t.log|] == (if t.Started() then Canceled else CanceledBeforeStart)
  {
    CountsAppend(t.log, if t.Started() then Canceled else CanceledBeforeStart);
  }

  /** `cancel` runs once: after a task is cancelled, no later step of a valid registry logs another cancellation hook. */
  lemma CanceledOnce<T>(r: Registry<T>, r': Registry<T>, h: nat)
    requires Inv(r) && Inv(r') && Extends(r, r') && h < |r.tasks| && r.tasks[h].canceled
    ensures forall i :: |r.tasks[h].log| <= i < |r'.tasks[h].log| ==> !r'.tasks[h].log[i].IsCancel()
  {
    assert TaskOk(r, h) && TaskOk(r', h);
    NoLaterCancel(r.tasks[h].log, r'.tasks[h].log);
  }

  /** A cancelled task never enters `doInBackground` afterwards. */
  lemma CanceledNeverRuns<T>(r: Registry<T>, r': Registry<T>, h: nat)
    requires Inv(r) && Inv(r') && Extends(r, r') && h < |r.tasks| && r.tasks[h].canceled
    ensures forall i :: |r.tasks[h].log| <= i < |r'.tasks[h].log| ==> !r'.tasks[h].log[i].BackgroundRun?
  {
    assert TaskOk(r, h) && TaskOk(r', h);
    NoRunAfterCancel(r.tasks[h].log, r'.tasks[h].log);
  }

  /**
   * A task whose cancellation came before `run` set `mStarted` never runs:
   * in every later valid registry `mStarted` is still false and the log
   * holds no run of `doInBackground`.
   */
  lemma CanceledBeforeStartNeverRuns<T>(r: Registry<T>, r': Registry<T>, h: nat)
    requires Inv(r) && Inv(r') && Extends(r, r') && h < |r.tasks| && r.tasks[h].canceled && !r.tasks[h].Started()
    ensures !r'.tasks[h].Started() && BackgroundRuns(r'.tasks[h].log) == 0
  {
    assert TaskOk(r, h) && TaskOk(r', h);
    CancelsBeforeStartGrow(r.tasks[h].log, r'.tasks[h].log);
  }

  /**
   * The message of `runResult` clears the task only when it is not
   * cancelled, and runs the result runnable, if one was set, either way.
   * When a newer task runs under the key, delivering a cancelled task's
   * message leaves it registered.
   */
  lemma DeliveredEffect<T>(r: Registry<T>, h: nat)
    requires Inv(r) && h < |r.tasks| && r.tasks[h].phase.Posted?
    ensures var t := r.tasks[h]; var r' := Delivered(r, h);
      (t.canceled ==> r'.keyTask == r.keyTask && r'.idTask == r.idTask) &&
      (!t.canceled ==> t.key !in r'.keyTask && forall id :: id in t.observers ==> id !in r'.idTask) &&
      (!t.canceled ==> forall k :: k in r.keyTask && k != t.key ==> k in r'.keyTask) &&
      r'.tasks[h].log == t.log + (if t.phase.result then [ResultRun(Present(t.observers))] else [])
  {
  }

  /** An exception in `doInBackground` nulls the post-result: delivery then runs no result. */
  lemma ThrewPostsNothing<T>(r: Registry<T>, h: nat)
    requires Inv(r) && h < |r.tasks| && r.tasks[h].phase.Running?
    ensures var r' := Completed(r, h, Threw);
      r'.tasks[h].phase == Posted(false) &&
      Delivered(r', h).tasks[h].log == r.tasks[h].log
  {
  }

  /**
   * `cancelAllEx`'s loop on a valid registry: `cancelEx(key)` for each key of
   * a set of registered keys, in any order, drops exactly those keys; each of
   * their tasks is cancelled once, and every other task is left as it was.
   */
  lemma {:induction false} CanceledKeysEffect<T>(r: Registry<T>, order: seq<string>, ks: set<string>)
    requires Inv(r) && Enumerates(order, ks) && ks <= r.keyTask.Keys
    ensures var r' := CanceledKeys(r, order);
      r'.keyTask == r.keyTask - ks && |r'.tasks| == |r.tasks| &&
      forall h :: 0 <= h < |r.tasks| ==>
        r'.tasks[h] == if Live(r, h) && r.tasks[h].key in ks then r.tasks[h].Cancel() else r.tasks[h]
  {
    if order != [] {
      var p := order[..|order| - 1];
      var k := order[|order| - 1];
      CanceledKeysEffect(r, p, ks - {k});
      var rp := CanceledKeys(r, p);
      assert KeyOk(r, k);
      var hk := r.keyTask[k];
      assert k in rp.keyTask && rp.keyTask[k] == hk;
      assert rp.tasks[hk] == r.tasks[hk];
      var r' := CanceledKeys(r, order);
      assert r' == Unregistered(rp, hk);
      assert r'.keyTask == r.keyTask - (ks - {k}) - {k};
      MapRemoveStep(r.keyTask, ks, k);
    }
  }

  /** With no key left, no id is registered. */
  lemma NoKeysNoIds<T>(r: Registry<T>)
    requires Inv(r) && r.keyTask == map[]
    ensures r.idTask == map[]
  {
    assert forall id :: id in r.idTask ==> IdOk(r, id);
    assert forall id :: id !in r.idTask;
  }

  // ---------------------------------------------------------------------------
  // The registry object of the source.
  // ---------------------------------------------------------------------------

  class TaskManager<T(==)> {
    /** `mKeyTaskMap`. */
    var keyTask: map<string, nat>
    /** `mIdTaskMap`. */
    var idTask: map<int, nat>
    /** Every Task object built so far, by index. */
    var tasks: seq<Task<T>>

    ghost function Abs(): Registry<T>
      reads this
    {
      Registry(keyTask, idTask, tasks)
    }

    ghost predicate Valid()
      reads this
    {
      Inv(Abs())
    }

    constructor ()
      ensures Valid() && Abs() == Empty()
    {
      keyTask := map[];
      idTask := map[];
      tasks := [];
    }

    /** `getObserverId`: the lowest non-negative id not in use. */
    method GetObserverId() returns (id: int)
      ensures id >= 0 && id !in idTask
      ensures forall j :: 0 <= j < id ==> j in idTask
    {
      id := 0;
      while id in idTask
        invariant id >= 0
        invariant forall j :: 0 <= j < id ==> j in idTask
        decreases |idTask.Keys| - id
      {
        CountBelow(idTask.Keys, id + 1);
        id := id + 1;
      }
    }

    /** `isRunningEx`: a non-empty key with a live task. */
    function IsRunning(key: string): (running: bool)
      requires Valid()
      reads this
      ensures running <==> key != "" && exists h :: 0 <= h < |tasks| && Live(Abs(), h) && tasks[h].key == key
    {
      assert key in keyTask ==> KeyOk(Abs(), key) && Live(Abs(), keyTask[key]);
      key != "" && key in keyTask
    }

    /**
     * `start`: an empty key, a null observer or a missing builder gives -1
     * and changes nothing; otherwise the lowest free id, registered with the
     * key's task (built and submitted when there is none).
     */
    method Start(key: string, observer: Option<T>, hasBuilder: bool) returns (id: int)
      requires Valid()
      modifies this
      ensures Valid() && Extends(old(Abs()), Abs())
      ensures key == "" || observer.None? || !hasBuilder ==> id == -1 && Abs() == old(Abs())
      ensures key != "" && observer.Some? && hasBuilder ==>
        id >= 0 && id !in old(idTask) && (forall j :: 0 <= j < id ==> j in old(idTask)) &&
        Abs() == Joined(old(Abs()), key, observer.value, id)
    {
      if key == "" || observer.None? || !hasBuilder {
        return -1;
      }
      id := GetObserverId();
      JoinedKeepsInv(Abs(), key, observer.value, id);
      var h: nat;
      if key in keyTask {
        h := keyTask[key];
        assert KeyOk(Abs(), key);
      } else {
        h := |tasks|;
        tasks := tasks + [NewTask(key)];
        keyTask := keyTask[key := h];
      }
      RegisterObserver(h, id, observer.value);
    }

    /** Task.`registerObserver`. */
    method RegisterObserver(h: nat, id: int, observer: T)
      requires h < |tasks|
      modifies this
      ensures keyTask == old(keyTask) && idTask == old(idTask)[id := h]
      ensures tasks == old(tasks)[h := old(tasks)[h].(observers := old(tasks)[h].observers[id := observer])]
    {
      tasks := tasks[h := tasks[h].(observers := tasks[h].observers[id := observer])];
      idTask := idTask[id := h];
    }

    /** Task.`cancel`. */
    method CancelTask(h: nat)
      requires h < |tasks|
      modifies this
      ensures Abs() == old(Abs().(tasks := tasks[h := tasks[h].Cancel()]))
    {
      var t := tasks[h];
      var hook: Callback<T> := if !t.phase.Idle? then Canceled else CanceledBeforeStart;
      tasks := tasks[h := t.(canceled := true, log := t.log + [hook])];
    }

    /** Task.`unregisterObserver`. */
    method UnregisterObserver(h: nat, id: int)
      requires Valid() && id in idTask && idTask[id] == h < |tasks|
      modifies this
      ensures Valid() && Extends(old(Abs()), Abs())
      ensures Abs() == Detached(old(Abs()), id)
    {
      DetachedKeepsInv(Abs(), id);
      idTask := idTask - {id};
      var t := tasks[h].(observers := tasks[h].observers - {id});
      if |t.observers| == 0 {
        keyTask := keyTask - {t.key};
        t := t.Cancel();
      }
      tasks := tasks[h := t];
    }

    /** Task.`clear`. */
    method Clear(h: nat)
      requires h < |tasks|
      modifies this
      ensures Abs() == Cleared(old(Abs()), h)
    {
      var t := tasks[h];
      keyTask := keyTask - {t.key};
      var rest := t.observers.Keys;
      while exists x :: x in rest
        invariant rest <= t.observers.Keys
        invariant keyTask == old(keyTask) - {t.key} && tasks == old(tasks)
        invariant idTask == old(idTask) - (t.observers.Keys - rest)
        decreases rest
      {
        var id :| id in rest;
        idTask := idTask - {id};
        rest := rest - {id};
      }
      assert t.observers.Keys - rest == t.observers.Keys;
    }

    /** Task.`unregisterAll`. */
    method UnregisterAll(h: nat)
      requires Valid() && Live(Abs(), h)
      modifies this
      ensures Valid() && Extends(old(Abs()), Abs())
      ensures Abs() == Unregistered(old(Abs()), h)
    {
      UnregisteredKeepsInv(Abs(), h);
      Clear(h);
      CancelTask(h);
    }

    /** `cancelEx(int id)`: detach one observer; false for an unknown id. */
    method CancelId(id: int) returns (found: bool)
      requires Valid()
      modifies this
      ensures Valid() && Extends(old(Abs()), Abs())
      ensures found <==> id in old(idTask)
      ensures found ==> IdOk(old(Abs()), id) && Abs() == Detached(old(Abs()), id)
      ensures !found ==> Abs() == old(Abs())
    {
      if id in idTask {
        assert IdOk(Abs(), id);
        assert IdOk(Abs(), id);
        UnregisterObserver(idTask[id], id);
        return true;
      }
      return false;
    }

    /** `cancelEx(String key)`: `unregisterAll` on the key's task; false for an empty or unknown key. */
    method CancelKey(key: string) returns (found: bool)
      requires Valid()
      modifies this
      ensures Valid() && Extends(old(Abs()), Abs())
      ensures found <==> key != "" && key in old(keyTask)
      ensures found ==> old(keyTask[key]) < |old(tasks)| && Abs() == Unregistered(old(Abs()), old(keyTask[key]))
      ensures !found ==> Abs() == old(Abs())
    {
      if key == "" {
        return false;
      }
      if key in keyTask {
        assert KeyOk(Abs(), key);
        UnregisterAll(keyTask[key]);
        return true;
      }
      return false;
    }

    /**
     * `cancelAllEx`: `cancelEx(key)` for each key of a snapshot of the key
     * table, in the order the snapshot is iterated; both tables end empty and
     * every live task is cancelled once.
     */
    method CancelAll() returns (ghost order: seq<string>)
      requires Valid()
      modifies this
      ensures Valid() && Extends(old(Abs()), Abs())
      ensures Enumerates(order, old(keyTask).Keys) && Abs() == CanceledKeys(old(Abs()), order)
      ensures keyTask == map[] && idTask == map[]
      ensures |tasks| == |old(tasks)|
      ensures forall h :: 0 <= h < |tasks| ==>
        tasks[h] == if Live(old(Abs()), h) then old(tasks)[h].Cancel() else old(tasks)[h]
      ensures forall k :: k in old(keyTask) ==> old(keyTask)[k] < |tasks| && tasks[old(keyTask)[k]].canceled
    {
      var keys := keyTask.Keys;
      var rest := keys;
      order := [];
      while exists x :: x in rest
        invariant Valid() && Extends(old(Abs()), Abs())
        invariant rest <= keys && keys == old(keyTask).Keys
        invariant Enumerates(order, keys - rest) && Abs() == CanceledKeys(old(Abs()), order)
        decreases rest
      {
        var key :| key in rest;
        CanceledKeysSnoc(old(Abs()), order, key);
        var _ := CancelKey(key);
        EnumeratesNext(order, keys, rest, key);
        order := order + [key];
        rest := rest - {key};
      }
      assert keys - rest == keys;
      CanceledKeysEffect(old(Abs()), order, keys);
      forall h | 0 <= h < |old(tasks)| && Live(old(Abs()), h) ensures old(tasks)[h].key in keys { }
      assert keyTask == map[];
      NoKeysNoIds(Abs());
      forall k | k in old(keyTask) ensures old(keyTask)[k] < |tasks| && tasks[old(keyTask)[k]].canceled {
        assert KeyOk(old(Abs()), k);
      }
    }

    /** The monitor-held start of Task.`run`. */
    method Begin(h: nat)
      requires Valid() && h < |tasks|
      modifies this
      ensures Valid() && Extends(old(Abs()), Abs())
      ensures Abs() == Begun(old(Abs()), h)
    {
      BegunKeepsInv(Abs(), h);
      var t := tasks[h];
      if t.canceled || !t.phase.Idle? {
        return;
      }
      tasks := tasks[h := t.(phase := Running, log := t.log + [BackgroundRun])];
    }

    /** The rest of Task.`run`: `doInBackground` returns or throws, then `runResult` posts. */
    method Complete(h: nat, outcome: Outcome)
      requires Valid() && h < |tasks| && tasks[h].phase.Running?
      modifies this
      ensures Valid() && Extends(old(Abs()), Abs())
      ensures Abs() == Completed(old(Abs()), h, outcome)
    {
      CompletedKeepsInv(Abs(), h, outcome);
      var result := match outcome
        case Finished(p) => p
        case Threw => false;
      tasks := tasks[h := tasks[h].(phase := Posted(result))];
    }

    /** The posted half of `runResult`. */
    method RunResult(h: nat)
      requires Valid() && h < |tasks| && tasks[h].phase.Posted?
      modifies this
      ensures Valid() && Extends(old(Abs()), Abs())
      ensures Abs() == Delivered(old(Abs()), h)
    {
      ghost var r0 := Abs();
      DeliveredKeepsInv(r0, h);
      var t := tasks[h];
      var log := t.log + if t.phase.result then [ResultRun(Present(t.observers))] else [];
      if !t.canceled {
        Clear(h);
      }
      tasks := tasks[h := t.(phase := Handled, log := log)];
      assert Abs() == Delivered(r0, h);
    }

    /** Task.`getObservers`: the set of observers, so one registered under several ids appears once. */
    method GetObservers(h: nat) returns (observers: set<T>)
      requires h < |tasks|
      ensures forall id :: id in tasks[h].observers ==> tasks[h].observers[id] in observers
      ensures forall o :: o in observers ==> exists id :: id in tasks[h].observers && tasks[h].observers[id] == o
    {
      var m := tasks[h].observers;
      observers := {};
      var rest := m.Keys;
      while exists x :: x in rest
        invariant rest <= m.Keys
        invariant forall id :: id in m && id !in rest ==> m[id] in observers
        invariant forall o :: o in observers ==> exists id :: id in m && m[id] == o
        decreases rest
      {
        var id :| id in rest;
        observers := observers + {m[id]};
        rest := rest - {id};
      }
    }
  }
}
