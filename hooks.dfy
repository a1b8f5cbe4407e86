/**
 * The user hooks of the three task registries (`doInBackground`,
 * `onObserverUnregistered`, `onCanceled`, `onCanceledBeforeStart` and the
 * posted result runnable), recorded as a log instead of being run.
 */
module Hooks {
  import opened Common

  /** One hook call. */
  datatype Callback<T> =
    | BackgroundRun
    | ObserverUnregistered(observer: Option<T>)
    | Canceled
    | CanceledBeforeStart
    | ResultRun(observers: map<int, Option<T>>)
  {
    /** A cancellation hook: `onCanceled`, or `onCanceledBeforeStart` of the library registry. */
    predicate IsCancel() {
      Canceled? || CanceledBeforeStart?
    }
  }

  /** How many cancellation hooks the log holds. */
  function Cancels<T>(log: seq<Callback<T>>): nat {
    if log == [] then 0 else Cancels(log[..|log| - 1]) + (if log[|log| - 1].IsCancel() then 1 else 0)
  }

  /** How many times the log ran `doInBackground`. */
  function BackgroundRuns<T>(log: seq<Callback<T>>): nat {
    if log == [] then 0 else BackgroundRuns(log[..|log| - 1]) + (if log[|log| - 1].BackgroundRun? then 1 else 0)
  }

  /** How many times the log called `onCanceledBeforeStart`. */
  function CancelsBeforeStart<T>(log: seq<Callback<T>>): nat {
    if log == [] then 0 else CancelsBeforeStart(log[..|log| - 1]) + (if log[|log| - 1].CanceledBeforeStart? then 1 else 0)
  }

  lemma CountsAppend<T>(log: seq<Callback<T>>, c: Callback<T>)
    ensures Cancels(log + [c]) == Cancels(log) + (if c.IsCancel() then 1 else 0)
    ensures BackgroundRuns(log + [c]) == BackgroundRuns(log) + (if c.BackgroundRun? then 1 else 0)
    ensures CancelsBeforeStart(log + [c]) == CancelsBeforeStart(log) + (if c.CanceledBeforeStart? then 1 else 0)
  {
    assert (log + [c])[..|log|] == log;
  }

  /** Counting cancellations distributes over concatenation. */
  lemma {:induction false} CancelsConcat<T>(a: seq<Callback<T>>, b: seq<Callback<T>>)
    ensures Cancels(a + b) == Cancels(a) + Cancels(b)
  {
    if b != [] {
      var b' := b[..|b| - 1];
      assert (a + b)[..|a + b| - 1] == a + b';
      CancelsConcat(a, b');
    } else {
      assert a + b == a;
    }
  }

  /** Counting `onCanceledBeforeStart` calls cannot decrease as the log grows. */
  lemma {:induction false} CancelsBeforeStartGrow<T>(a: seq<Callback<T>>, b: seq<Callback<T>>)
    requires a <= b
    ensures CancelsBeforeStart(a) <= CancelsBeforeStart(b)
  {
    if |b| > |a| {
      var b' := b[..|b| - 1];
      assert a <= b';
      CancelsBeforeStartGrow(a, b');
    } else {
      assert a == b;
    }
  }

  /** A log that counts no cancellation holds none. */
  lemma {:induction false} NoCancels<T>(s: seq<Callback<T>>)
    requires Cancels(s) == 0
    ensures forall i :: 0 <= i < |s| ==> !s[i].IsCancel()
  {
    if s != [] {
      NoCancels(s[..|s| - 1]);
      assert forall i :: 0 <= i < |s| - 1 ==> s[i] == s[..|s| - 1][i];
    }
  }

  /** A log extension that adds no cancellation has no cancellation hook past the old end. */
  lemma NoLaterCancel<T>(a: seq<Callback<T>>, b: seq<Callback<T>>)
    requires a <= b && Cancels(a) == Cancels(b)
    ensures forall i :: |a| <= i < |b| ==> !b[i].IsCancel()
  {
    var s := b[|a|..];
    assert b == a + s;
    CancelsConcat(a, s);
    NoCancels(s);
    forall i | |a| <= i < |b| ensures !b[i].IsCancel() {
      assert b[i] == s[i - |a|];
    }
  }

  /** `doInBackground` never runs after a cancellation hook: each run comes while the log holds no cancellation. */
  predicate RunsBeforeCancel<T>(log: seq<Callback<T>>) {
    log == [] ||
    (RunsBeforeCancel(log[..|log| - 1]) && (log[|log| - 1].BackgroundRun? ==> Cancels(log[..|log| - 1]) == 0))
  }

  /**
   * Appending a hook keeps `doInBackground` before every cancellation,
   * provided a run is appended only to a log without cancellations.
   */
  lemma AppendKeepsRunsBeforeCancel<T>(log: seq<Callback<T>>, c: Callback<T>)
    requires RunsBeforeCancel(log)
    requires c.BackgroundRun? ==> Cancels(log) == 0
    ensures RunsBeforeCancel(log + [c])
  {
    assert (log + [c])[..|log|] == log;
  }

  /** Once a log holds a cancellation, no extension of it that keeps runs before cancellations runs the body again. */
  lemma {:induction false} NoRunAfterCancel<T>(a: seq<Callback<T>>, b: seq<Callback<T>>)
    requires a <= b && Cancels(a) > 0 && RunsBeforeCancel(b)
    ensures forall j :: |a| <= j < |b| ==> !b[j].BackgroundRun?
  {
    if |b| > |a| {
      var b' := b[..|b| - 1];
      NoRunAfterCancel(a, b');
      assert b' == a + b'[|a|..];
      CancelsConcat(a, b'[|a|..]);
      forall j | |a| <= j < |b| - 1 ensures !b[j].BackgroundRun? {
        assert b[j] == b'[j];
      }
    }
  }
}
