// The reload debouncer of internal/frr/config.go: it squashes bursts of configuration
// snapshots into one apply, re-applies the last configuration on request and retries a
// failed apply on a slower cadence. The goroutine, its channels and timers are transport:
// each `select` case becomes one step, and the outcome of the apply body is a parameter.
module Debounce {
  import opened Wrappers
  import opened FrrConfig

  /** Which interval the armed timer was started with. */
  datatype Interval = Quiet | Retry

  /** A reload request: a new configuration, or "apply the last one again". */
  datatype ReloadEvent = NewSnapshot(config: Config) | ReuseLast

  datatype State = State(config: Option<Config>, timerSet: bool, interval: Interval, running: bool)

  /** A timer is only ever armed while a configuration is held. */
  predicate Inv(s: State) {
    s.timerSet ==> s.config.Some?
  }

  function Initial(): (s: State)
    ensures Inv(s) && s.running && !s.timerSet && s.config.None?
  {
    State(None, false, Quiet, true)
  }

  /** True when the event leaves the state untouched. */
  predicate Ignored(s: State, ev: ReloadEvent) {
    || (ev.ReuseLast? && s.config.None?)
    || (ev.NewSnapshot? && s.config == Some(ev.config))
  }

  /** A reload event: drop it, or take its configuration and arm the quiet timer unless one is armed. */
  function OnReloadStep(s: State, ev: ReloadEvent): (t: State)
    requires s.running
    ensures Inv(s) ==> Inv(t)
    ensures t.running
  {
    if ev.ReuseLast? && s.config.None? then s
    else if ev.NewSnapshot? && Some(ev.config) == s.config then s
    else
      var config := if ev.NewSnapshot? then Some(ev.config) else s.config;
      if !s.timerSet then State(config, true, Quiet, true)
      else s.(config := config)
  }

  /** The timer fires: the held configuration goes to the apply body; a failure re-arms the retry timer. */
  function OnTimerStep(s: State, applyOk: bool): (r: (Config, State))
    requires s.running && s.timerSet && Inv(s)
    ensures Inv(r.1) && r.1.running && r.1.config == s.config && Some(r.0) == s.config
  {
    if applyOk then (s.config.value, s.(timerSet := false))
    else (s.config.value, State(s.config, true, Retry, true))
  }

  /** The events of a burst, one after the other. */
  function Reloads(s: State, evs: seq<ReloadEvent>): (t: State)
    requires s.running
    ensures t.running && (Inv(s) ==> Inv(t))
    decreases |evs|
  {
    if evs == [] then s else Reloads(OnReloadStep(s, evs[0]), evs[1..])
  }

  /** A reuse-last request with nothing held is dropped: no timer, no apply. */
  lemma ReuseLastWithoutConfigIgnored(s: State)
    requires s.running && s.config.None? && Inv(s)
    ensures OnReloadStep(s, ReuseLast) == s && !s.timerSet
  {
  }

  /** A snapshot equal to the held configuration is dropped, whether or not a timer is armed. */
  lemma SameSnapshotIgnored(s: State, c: Config)
    requires s.running && s.config == Some(c)
    ensures OnReloadStep(s, NewSnapshot(c)) == s
  {
  }

  /** An equal snapshot is dropped after the held configuration was applied, too. */
  lemma SameSnapshotIgnoredAfterApply(s: State, c: Config, applyOk: bool)
    requires s.running && s.timerSet && Inv(s) && s.config == Some(c)
    ensures var after := OnTimerStep(s, applyOk).1; OnReloadStep(after, NewSnapshot(c)) == after
  {
  }

  /** Any other snapshot replaces the held configuration; reuse-last keeps it. */
  lemma EventReplacesOrKeeps(s: State, ev: ReloadEvent)
    requires s.running && !Ignored(s, ev)
    ensures ev.NewSnapshot? ==> OnReloadStep(s, ev).config == Some(ev.config)
    ensures ev.ReuseLast? ==> OnReloadStep(s, ev).config == s.config
    ensures OnReloadStep(s, ev).timerSet
  {
  }

  /** An armed timer is never restarted by an event: its interval stays, whichever it was. */
  lemma ArmedTimerKept(s: State, ev: ReloadEvent)
    requires s.running && s.timerSet
    ensures OnReloadStep(s, ev).timerSet && OnReloadStep(s, ev).interval == s.interval
  {
  }

  /** Some snapshot of the burst differs from the configuration held just before it. */
  predicate SomeChange(held: Option<Config>, cfgs: seq<Config>)
    decreases |cfgs|
  {
    |cfgs| > 0 && (Some(cfgs[0]) != held || SomeChange(Some(cfgs[0]), cfgs[1..]))
  }

  /**
   * A burst of snapshots leaves the last one held, and the timer armed unless no timer
   * was armed and every snapshot equalled what was already held; the interval is the
   * quiet one unless a timer was already armed.
   */
  lemma {:induction false} BurstKeepsLast(s: State, cfgs: seq<Config>)
    requires s.running && |cfgs| > 0
    ensures var t := Reloads(s, Snapshots(cfgs));
      && t.config == Some(cfgs[|cfgs| - 1])
      && (s.timerSet || SomeChange(s.config, cfgs) ==> t.timerSet)
      && (t.timerSet ==> t.interval == (if s.timerSet then s.interval else Quiet))
    decreases |cfgs|
  {
    var evs := Snapshots(cfgs);
    var s1 := OnReloadStep(s, evs[0]);
    assert evs[1..] == Snapshots(cfgs[1..]);
    assert Reloads(s, evs) == Reloads(s1, evs[1..]);
    assert s1.config == Some(cfgs[0]);
    if |cfgs| > 1 {
      BurstKeepsLast(s1, cfgs[1..]);
    } else {
      assert Snapshots(cfgs[1..]) == [];
      assert !SomeChange(Some(cfgs[0]), cfgs[1..]);
    }
  }

  function Snapshots(cfgs: seq<Config>): (evs: seq<ReloadEvent>)
    ensures |evs| == |cfgs| && forall i :: 0 <= i < |cfgs| ==> evs[i] == NewSnapshot(cfgs[i])
  {
    if cfgs == [] then [] else [NewSnapshot(cfgs[0])] + Snapshots(cfgs[1..])
  }

  /** Timer firings with the given apply outcomes: the configurations handed to the body, and the final state. */
  function Fires(s: State, outcomes: seq<bool>): (r: (seq<Config>, State))
    requires s.running && Inv(s)
    requires forall i :: 0 <= i < |outcomes| - 1 ==> !outcomes[i]
    requires |outcomes| > 0 ==> s.timerSet
    ensures Inv(r.1) && r.1.running && |r.0| == |outcomes|
    decreases |outcomes|
  {
    if outcomes == [] then ([], s)
    else
      var (applied, next) := OnTimerStep(s, outcomes[0]);
      var (rest, last) := Fires(next, outcomes[1..]);
      ([applied] + rest, last)
  }

  /**
   * Failed applies are retried on the retry interval with the same configuration until
   * one succeeds; then the timer is disarmed and the configuration is still held.
   */
  lemma {:induction false} RetryUntilSuccess(s: State, failures: nat)
    requires s.running && s.timerSet && Inv(s)
    ensures var outcomes := seq(failures, _ => false) + [true];
      var (applied, t) := Fires(s, outcomes);
      && (forall i :: 0 <= i < |applied| ==> Some(applied[i]) == s.config)
      && t.config == s.config && !t.timerSet
    decreases failures
  {
    var outcomes := seq(failures, _ => false) + [true];
    if failures > 0 {
      var next := OnTimerStep(s, false).1;
      assert next.interval == Retry && next.timerSet;
      RetryUntilSuccess(next, failures - 1);
      assert outcomes[1..] == seq(failures - 1, _ => false) + [true];
    } else {
      assert outcomes == [true];
    }
  }

  /** After a successful apply, a reuse-last request arms the quiet timer and the same configuration is applied again. */
  lemma ReuseLastReapplies(s: State)
    requires s.running && s.timerSet && Inv(s)
    ensures var applied := OnTimerStep(s, true);
      var again := OnReloadStep(applied.1, ReuseLast);
      && again.timerSet && again.interval == Quiet
      && OnTimerStep(again, true).0 == applied.0
  {
  }

  /** The debouncer loop: its local variables become the fields of one object. */
  class Debouncer {
    var config: Option<Config>
    var timerSet: bool
    var interval: Interval
    var running: bool

    function Current(): State
      reads this
    {
      State(config, timerSet, interval, running)
    }

    predicate Valid()
      reads this
    {
      Inv(Current())
    }

    constructor ()
      ensures Current() == Initial() && Valid()
    {
      config := None;
      timerSet := false;
      interval := Quiet;
      running := true;
    }

    /** A value received on the reload channel. */
    method OnReload(ev: ReloadEvent)
      requires running && Valid()
      modifies this
      ensures Current() == OnReloadStep(old(Current()), ev) && Valid()
    {
      if ev.ReuseLast? && config.None? {
        return;
      }
      if ev.NewSnapshot? && Some(ev.config) == config {
        return;
      }
      if ev.NewSnapshot? {
        config := Some(ev.config);
      }
      if !timerSet {
        interval := Quiet;
        timerSet := true;
      }
    }

    /** The armed timer fires: returns the configuration handed to the apply body, whose outcome is `applyOk`. */
    method OnTimer(applyOk: bool) returns (applied: Config)
      requires running && timerSet && Valid()
      modifies this
      ensures (applied, Current()) == OnTimerStep(old(Current()), applyOk) && Valid()
    {
      applied := config.value;
      if !applyOk {
        interval := Retry;
        timerSet := true;
        return;
      }
      timerSet := false;
    }

    /** The reload channel is closed or the context is cancelled: the loop returns. */
    method OnClose()
      modifies this
      ensures Current() == old(Current()).(running := false)
    {
      running := false;
    }
  }
}
