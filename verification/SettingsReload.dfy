/**
 * Reloading HTTP settings (`Settings::operator[]`, `load` and `updateTimestamp`) as a protocol: any
 * number of threads look URLs up in one settings object, interleaved in every way its
 * readers-writer lock allows, while the settings file changes and update stamps are set.
 */
module SettingsReload {
  import opened ConfigMerge
  import opened Configs
  import opened Text

  type File = seq<Entry>

  /** A load: when it began, and what it found in the file. */
  datatype Load = Load(began: int, file: File)

  /** Where a thread is in `operator[]`; from `WantExclusive` to `Reading` it is inside `load`. */
  datatype Phase =
    | Idle
    | WantShared
    | Checking
    | WantExclusive
    | Locked
    | Stamped
    | Reading
    | WantAgain
    | Merging(merged: File)
    | Returned(merged: File, load: nat)

  /**
   * `loads` are all loads so far; `lastReadBy` and `settingsBy` say which of them last wrote
   * `lastRead` and `settings`.
   */
  datatype State = State(clock: int, lastUpdated: int, lastRead: int, settings: File,
                         loads: seq<Load>, lastReadBy: nat, settingsBy: nat,
                         writer: Option<nat>, readers: set<nat>, threads: seq<Phase>)

  datatype Step =
    | Tick(seconds: nat)
    | UpdateTimestamp(time: int)
    | Start(tid: nat)
    | LockShared(tid: nat)
    | Check(tid: nat)
    | LockExclusive(tid: nat)
    | Stamp(tid: nat, file: File)
    | Clear(tid: nat)
    | ReadEntry(tid: nat)
    | UnlockExclusive(tid: nat)
    | MergeEntry(tid: nat)
    | Return(tid: nat)

  predicate Enabled(s: State, step: Step) {
    if step.Tick? || step.UpdateTimestamp? then true
    else if step.tid >= |s.threads| then false
    else
      var phase := s.threads[step.tid];
      match step
      case Start(_) => phase.Idle? || phase.Returned?
      case LockShared(_) => (phase.WantShared? || phase.WantAgain?) && s.writer == None
      case Check(_) => phase.Checking?
      case LockExclusive(_) => phase.WantExclusive? && s.writer == None && s.readers == {}
      case Stamp(_, _) => phase.Locked?
      case Clear(_) => phase.Stamped?
      case ReadEntry(_) => phase.Reading? && s.settingsBy < |s.loads| && |s.settings| < |s.loads[s.settingsBy].file|
      case UnlockExclusive(_) => phase.Reading?
      case MergeEntry(_) => phase.Merging? && |phase.merged| < |s.settings|
      case Return(_) => phase.Merging? && |phase.merged| >= |s.settings|
  }

  function Move(s: State, tid: nat, phase: Phase): State
    requires tid < |s.threads|
  {
    s.(threads := s.threads[tid := phase])
  }

  function Do(s: State, step: Step): State
    requires Enabled(s, step)
  {
    match step
    case Tick(seconds) => s.(clock := s.clock + seconds)
    case UpdateTimestamp(time) => s.(lastUpdated := time)
    case Start(tid) => Move(s, tid, WantShared)
    case LockShared(tid) =>
      Move(s, tid, if s.threads[tid].WantShared? then Checking else Merging([])).(readers := s.readers + {tid})
    case Check(tid) =>
      if s.lastRead < s.lastUpdated then Move(s, tid, WantExclusive).(readers := s.readers - {tid})
      else Move(s, tid, Merging([]))
    case LockExclusive(tid) => Move(s, tid, Locked).(writer := Some(tid))
    case Stamp(tid, file) =>
      Move(s, tid, Stamped).(lastRead := s.clock, lastReadBy := |s.loads|, loads := s.loads + [Load(s.clock, file)])
    case Clear(tid) => Move(s, tid, Reading).(settings := [], settingsBy := s.lastReadBy)
    case ReadEntry(_) => s.(settings := s.settings + [s.loads[s.settingsBy].file[|s.settings|]])
    case UnlockExclusive(tid) => Move(s, tid, WantAgain).(writer := None)
    case MergeEntry(tid) =>
      var merged := s.threads[tid].merged;
      Move(s, tid, Merging(merged + [s.settings[|merged|]]))
    case Return(tid) =>
      Move(s, tid, Returned(s.threads[tid].merged, s.settingsBy)).(readers := s.readers - {tid})
  }

  /** The state after a run; `None` when a step of it is not possible. */
  function Run(s: State, steps: seq<Step>): Option<State>
    decreases |steps|
  {
    if steps == [] then Some(s)
    else if Enabled(s, steps[0]) then Run(Do(s, steps[0]), steps[1..])
    else None
  }

  /** After construction, which has loaded the settings once. */
  predicate Initial(s: State) {
    && |s.loads| == 1 && s.lastReadBy == 0 && s.settingsBy == 0
    && s.lastRead == s.loads[0].began <= s.clock && s.settings <= s.loads[0].file
    && s.writer == None && s.readers == {}
    && forall i :: 0 <= i < |s.threads| ==> s.threads[i].Idle?
  }

  // ---- The invariant ----

  predicate HoldsShared(phase: Phase) {
    phase.Checking? || phase.Merging?
  }

  predicate HoldsExclusive(phase: Phase) {
    phase.Locked? || phase.Stamped? || phase.Reading?
  }

  ghost predicate Locks(s: State) {
    && (forall i :: 0 <= i < |s.threads| ==> (HoldsShared(s.threads[i]) <==> i in s.readers))
    && (forall i :: 0 <= i < |s.threads| ==> (HoldsExclusive(s.threads[i]) <==> s.writer == Some(i)))
    && (s.writer.Some? ==> s.readers == {} && s.writer.value < |s.threads|)
  }

  /** In the critical section of `load`, between the two assignments. */
  predicate Between(s: State) {
    s.writer.Some? && s.writer.value < |s.threads| && s.threads[s.writer.value].Stamped?
  }

  ghost predicate Loads(s: State) {
    && s.lastReadBy == |s.loads| - 1 && s.settingsBy < |s.loads|
    && s.lastRead == s.loads[s.lastReadBy].began <= s.clock
    && s.settings <= s.loads[s.settingsBy].file
    && (!Between(s) ==> s.settingsBy == s.lastReadBy)
  }

  /** What a lookup has merged so far, or has returned, comes from one load. */
  ghost predicate MergesOneLoad(p: Phase, s: State) {
    match p
    case Merging(merged) => merged <= s.settings
    case Returned(merged, load) => load < |s.loads| && merged <= s.loads[load].file
    case _ => true
  }

  ghost predicate Inv(s: State) {
    && Locks(s) && Loads(s)
    && forall i :: 0 <= i < |s.threads| ==> MergesOneLoad(s.threads[i], s)
  }

  lemma StepLocks(s: State, step: Step)
    requires Locks(s) && Enabled(s, step)
    ensures Locks(Do(s, step))
  {
  }

  lemma StepLoads(s: State, step: Step)
    requires Locks(s) && Loads(s) && Enabled(s, step)
    ensures Loads(Do(s, step)) && s.loads <= Do(s, step).loads
  {
  }

  lemma StepMerges(s: State, step: Step)
    requires Inv(s) && Enabled(s, step)
    ensures forall i :: 0 <= i < |Do(s, step).threads| ==> MergesOneLoad(Do(s, step).threads[i], Do(s, step))
  {
  }

  // ---- Every run, whatever the stamps ----

  lemma {:induction false} RunKeeps(s: State, steps: seq<Step>)
    requires Inv(s) && Run(s, steps).Some?
    ensures Inv(Run(s, steps).value)
    decreases |steps|
  {
    if steps != [] {
      StepLocks(s, steps[0]);
      StepLoads(s, steps[0]);
      StepMerges(s, steps[0]);
      RunKeeps(Do(s, steps[0]), steps[1..]);
    }
  }

  /**
   * Outside the critical section of `load`, `lastRead` and `settings` come from the same load, and
   * the settings are what it found in the file, up to a point where reading may have failed.
   */
  lemma SameLoad(start: State, steps: seq<Step>, end: State)
    requires Initial(start) && Run(start, steps) == Some(end)
    ensures end.writer == None ==>
      && end.settingsBy == end.lastReadBy < |end.loads|
      && end.lastRead == end.loads[end.settingsBy].began && end.settings <= end.loads[end.settingsBy].file
  {
    RunKeeps(start, steps);
  }

  /** Nothing is written while a lookup merges: what it returns are all settings of one load. */
  lemma LookupSeesOneLoad(start: State, steps: seq<Step>, s: State, tid: nat)
    requires Initial(start) && Run(start, steps) == Some(s) && Enabled(s, Return(tid))
    ensures s.settingsBy < |s.loads| && s.settings <= s.loads[s.settingsBy].file
    ensures s.threads[tid].merged == s.settings
    ensures Do(s, Return(tid)).threads[tid] == Returned(s.settings, s.settingsBy)
  {
    RunKeeps(start, steps);
    assert MergesOneLoad(s.threads[tid], s);
  }

  // ---- How old the settings are that a lookup merges ----

  /** The thread is bound to merge, or has merged, settings of a load begun at `time` or later. */
  ghost predicate Bound(p: Phase, s: State, time: int) {
    match p
    case Idle => false
    case WantShared => false
    case Checking => false
    case WantExclusive => time <= s.clock
    case Locked => time <= s.clock
    case Stamped => time <= s.lastRead
    case Reading => time <= s.lastRead
    case WantAgain => time <= s.lastRead
    case Merging(_) => time <= s.lastRead
    case Returned(_, load) => load < |s.loads| && time <= s.loads[load].began
  }

  lemma StepKeepsBound(s: State, step: Step, tid: nat, time: int)
    requires Inv(s) && Enabled(s, step) && tid < |s.threads| && step != Start(tid)
    requires Bound(s.threads[tid], s, time)
    ensures tid < |Do(s, step).threads| && Bound(Do(s, step).threads[tid], Do(s, step), time)
  {
  }

  lemma {:induction false} RunKeepsBound(s: State, steps: seq<Step>, tid: nat, time: int)
    requires Inv(s) && Run(s, steps).Some? && tid < |s.threads| && Start(tid) !in steps
    requires Bound(s.threads[tid], s, time)
    ensures var end := Run(s, steps).value; tid < |end.threads| && Bound(end.threads[tid], end, time)
    decreases |steps|
  {
    if steps != [] {
      assert steps[0] in steps && forall step <- steps[1..] :: step in steps;
      StepLocks(s, steps[0]);
      StepLoads(s, steps[0]);
      StepMerges(s, steps[0]);
      StepKeepsBound(s, steps[0], tid, time);
      RunKeepsBound(Do(s, steps[0]), steps[1..], tid, time);
    }
  }

  /** The thread merges, or has merged, the settings of this very load. */
  ghost predicate BoundTo(p: Phase, s: State, load: nat) {
    match p
    case Merging(_) => s.settingsBy == load
    case Returned(_, l) => l == load
    case _ => false
  }

  lemma StepKeepsBoundTo(s: State, step: Step, tid: nat, load: nat)
    requires Inv(s) && Enabled(s, step) && tid < |s.threads| && step != Start(tid)
    requires BoundTo(s.threads[tid], s, load)
    ensures tid < |Do(s, step).threads| && BoundTo(Do(s, step).threads[tid], Do(s, step), load)
  {
  }

  lemma {:induction false} RunKeepsBoundTo(s: State, steps: seq<Step>, tid: nat, load: nat)
    requires Inv(s) && Run(s, steps).Some? && tid < |s.threads| && Start(tid) !in steps
    requires BoundTo(s.threads[tid], s, load)
    ensures var end := Run(s, steps).value;
      tid < |end.threads| && BoundTo(end.threads[tid], end, load) && s.loads <= end.loads
    decreases |steps|
  {
    if steps != [] {
      assert steps[0] in steps && forall step <- steps[1..] :: step in steps;
      StepLocks(s, steps[0]);
      StepLoads(s, steps[0]);
      StepMerges(s, steps[0]);
      StepKeepsBoundTo(s, steps[0], tid, load);
      RunKeepsBoundTo(Do(s, steps[0]), steps[1..], tid, load);
    }
  }

  /**
   * What the check decides, in every run: a lookup that compares the stamps at a time when `time`
   * is past returns settings of a load begun at `time` or later exactly when it finds them outdated,
   * so that it loads, or they were loaded at `time` or later already.
   */
  lemma CheckDecides(start: State, before: seq<Step>, s: State, tid: nat, after: seq<Step>, end: State, time: int)
    requires Initial(start) && Run(start, before) == Some(s) && Enabled(s, Check(tid)) && time <= s.clock
    requires Run(Do(s, Check(tid)), after) == Some(end) && Start(tid) !in after
    requires tid < |end.threads| && end.threads[tid].Returned?
    ensures end.threads[tid].load < |end.loads|
    ensures time <= end.loads[end.threads[tid].load].began <==> s.lastRead < s.lastUpdated || time <= s.lastRead
  {
    RunKeeps(start, before);
    StepLocks(s, Check(tid));
    StepLoads(s, Check(tid));
    StepMerges(s, Check(tid));
    var checked := Do(s, Check(tid));
    if s.lastRead < s.lastUpdated {
      RunKeepsBound(checked, after, tid, time);
    } else {
      assert s.writer == None;
      RunKeepsBoundTo(checked, after, tid, s.settingsBy);
      assert end.loads[s.settingsBy] == checked.loads[s.settingsBy];
    }
  }

  // ---- Freshness ----

  /** Since the stamp `time` was set, no lower one was. */
  ghost predicate NoneBelow(steps: seq<Step>, time: int) {
    forall step <- steps :: step.UpdateTimestamp? ==> time <= step.time
  }

  /** The lookup of the thread goes on after the stamp `time`, or is bound already. */
  ghost predicate Expects(p: Phase, s: State, time: int) {
    p.WantShared? || p.Checking? || Bound(p, s, time)
  }

  lemma StepExpects(s: State, step: Step, tid: nat, time: int)
    requires Inv(s) && Enabled(s, step) && tid < |s.threads| && Expects(s.threads[tid], s, time)
    requires time <= s.clock && time <= s.lastUpdated && (step.UpdateTimestamp? ==> time <= step.time)
    ensures var s' := Do(s, step);
      tid < |s'.threads| && Expects(s'.threads[tid], s', time) && time <= s'.clock && time <= s'.lastUpdated
  {
    if step != Start(tid) && Bound(s.threads[tid], s, time) {
      StepKeepsBound(s, step, tid, time);
    }
  }

  lemma {:induction false} RunExpects(s: State, steps: seq<Step>, tid: nat, time: int)
    requires Inv(s) && Run(s, steps).Some? && NoneBelow(steps, time)
    requires time <= s.clock && time <= s.lastUpdated && tid < |s.threads| && Expects(s.threads[tid], s, time)
    ensures var end := Run(s, steps).value; tid < |end.threads| && Expects(end.threads[tid], end, time)
    decreases |steps|
  {
    if steps != [] {
      assert steps[0] in steps && forall step <- steps[1..] :: step in steps;
      StepLocks(s, steps[0]);
      StepLoads(s, steps[0]);
      StepMerges(s, steps[0]);
      StepExpects(s, steps[0], tid, time);
      RunExpects(Do(s, steps[0]), steps[1..], tid, time);
    }
  }

  lemma {:induction false} RunStamped(s: State, steps: seq<Step>, time: int)
    requires Inv(s) && Run(s, steps).Some? && NoneBelow(steps, time) && time <= s.clock && time <= s.lastUpdated
    ensures var end := Run(s, steps).value; Inv(end) && time <= end.clock && time <= end.lastUpdated
    decreases |steps|
  {
    if steps != [] {
      assert steps[0] in steps && forall step <- steps[1..] :: step in steps;
      StepLocks(s, steps[0]);
      StepLoads(s, steps[0]);
      StepMerges(s, steps[0]);
      RunStamped(Do(s, steps[0]), steps[1..], time);
    }
  }

  /**
   * A run in which the stamp `time` is set, no lower one is set later, a lookup is started after
   * it, and this or a later lookup of the thread has returned in the end.
   */
  datatype History = History(start: State, before: seq<Step>, between: seq<Step>, tid: nat, after: seq<Step>)

  function Updated(h: History): Option<State> {
    Run(h.start, h.before)
  }

  function Started(h: History, time: int): Option<State> {
    if Updated(h).None? then None else Run(Do(Updated(h).value, UpdateTimestamp(time)), h.between)
  }

  function Ended(h: History, time: int): Option<State> {
    var s := Started(h, time);
    if s.None? || !Enabled(s.value, Start(h.tid)) then None else Run(Do(s.value, Start(h.tid)), h.after)
  }

  /** The stamp is set at clock `clock`. */
  ghost predicate IsHistory(h: History, clock: int, time: int) {
    && Initial(h.start) && NoneBelow(h.between, time) && NoneBelow(h.after, time)
    && Ended(h, time).Some? && Updated(h).value.clock == clock
    && h.tid < |Ended(h, time).value.threads| && Ended(h, time).value.threads[h.tid].Returned?
  }

  ghost predicate IsFresh(h: History, time: int)
    requires Ended(h, time).Some? && h.tid < |Ended(h, time).value.threads|
    requires Ended(h, time).value.threads[h.tid].Returned?
  {
    var end := Ended(h, time).value;
    var r := end.threads[h.tid];
    r.load < |end.loads| && time <= end.loads[r.load].began && r.merged <= end.loads[r.load].file
  }

  /**
   * Freshness: a lookup that starts after `updateTimestamp(time)` returns settings of a load begun
   * at or after `time`, if `time` was not in the future and no lower stamp has been set since.
   */
  lemma FreshLookup(h: History, clock: int, time: int)
    requires IsHistory(h, clock, time) && time <= clock
    ensures IsFresh(h, time)
  {
    var s0 := Updated(h).value;
    RunKeeps(h.start, h.before);
    var s1 := Do(s0, UpdateTimestamp(time));
    StepLocks(s0, UpdateTimestamp(time));
    StepLoads(s0, UpdateTimestamp(time));
    StepMerges(s0, UpdateTimestamp(time));
    RunStamped(s1, h.between, time);
    var s2 := Started(h, time).value;
    var s3 := Do(s2, Start(h.tid));
    StepLocks(s2, Start(h.tid));
    StepLoads(s2, Start(h.tid));
    StepMerges(s2, Start(h.tid));
    RunExpects(s3, h.after, h.tid, time);
    RunKeeps(s3, h.after);
    var end := Ended(h, time).value;
    assert MergesOneLoad(end.threads[h.tid], end);
  }

  // ---- Where freshness ends ----

  /** One thread, which has called nothing yet, and settings loaded at `loaded`. */
  function Alone(clock: int, loaded: int): State {
    State(clock, loaded, loaded, [], [Load(loaded, [])], 0, 0, None, {}, [Idle])
  }

  lemma RunFirst(s: State, step: Step, rest: seq<Step>)
    requires Enabled(s, step)
    ensures Run(s, [step] + rest) == Run(Do(s, step), rest)
  {
    assert ([step] + rest)[1..] == rest;
  }

  const MERGE_NOTHING: seq<Step> := [Return(0)] + []
  const SKIP_LOADING: seq<Step> := [LockShared(0)] + ([Check(0)] + MERGE_NOTHING)
  const LOAD_NOTHING: seq<Step> := [Clear(0)] + ([UnlockExclusive(0)] + ([LockShared(0)] + MERGE_NOTHING))
  const START_LOADING: seq<Step> := [LockShared(0)] + ([Check(0)] + ([LockExclusive(0)] + ([Stamp(0, [])] + LOAD_NOTHING)))

  lemma MergeNothing(s: State)
    requires s.threads == [Merging([])] && s.settings == []
    ensures Run(s, MERGE_NOTHING) == Some(s.(threads := [Returned([], s.settingsBy)], readers := s.readers - {0}))
  {
    RunFirst(s, Return(0), []);
    assert Do(s, Return(0)).threads == [Returned([], s.settingsBy)];
  }

  /** The lookup finds its settings recent enough. */
  lemma SkipLoading(s: State)
    requires s.threads == [WantShared] && s.writer == None && s.readers == {} && s.settings == []
    requires s.lastUpdated <= s.lastRead
    ensures Run(s, SKIP_LOADING) == Some(s.(threads := [Returned([], s.settingsBy)]))
  {
    var s1 := Do(s, LockShared(0));
    var s2 := Do(s1, Check(0));
    RunFirst(s, LockShared(0), [Check(0)] + MERGE_NOTHING);
    RunFirst(s1, Check(0), MERGE_NOTHING);
    assert s2 == s.(threads := [Merging([])], readers := {0}) && s2.readers - {0} == {};
    MergeNothing(s2);
  }

  lemma LoadNothing(s: State)
    requires s.threads == [Stamped] && s.writer == Some(0) && s.readers == {}
    ensures Run(s, LOAD_NOTHING)
         == Some(s.(threads := [Returned([], s.lastReadBy)], settings := [], settingsBy := s.lastReadBy, writer := None))
  {
    var s1 := Do(s, Clear(0));
    var s2 := Do(s1, UnlockExclusive(0));
    var s3 := Do(s2, LockShared(0));
    RunFirst(s, Clear(0), [UnlockExclusive(0)] + ([LockShared(0)] + MERGE_NOTHING));
    RunFirst(s1, UnlockExclusive(0), [LockShared(0)] + MERGE_NOTHING);
    RunFirst(s2, LockShared(0), MERGE_NOTHING);
    assert s3 == s.(threads := [Merging([])], settings := [], settingsBy := s.lastReadBy, writer := None, readers := {0});
    assert s3.readers - {0} == {};
    MergeNothing(s3);
  }

  /** The lookup loads the settings, of which the file has none. */
  lemma StartLoading(s: State)
    requires s.threads == [WantShared] && s.writer == None && s.readers == {} && s.lastRead < s.lastUpdated
    ensures Run(s, START_LOADING)
         == Some(s.(threads := [Returned([], |s.loads|)], settings := [], lastRead := s.clock,
                    loads := s.loads + [Load(s.clock, [])], lastReadBy := |s.loads|, settingsBy := |s.loads|))
  {
    var s1 := Do(s, LockShared(0));
    var s2 := Do(s1, Check(0));
    var s3 := Do(s2, LockExclusive(0));
    RunFirst(s, LockShared(0), [Check(0)] + ([LockExclusive(0)] + ([Stamp(0, [])] + LOAD_NOTHING)));
    RunFirst(s1, Check(0), [LockExclusive(0)] + ([Stamp(0, [])] + LOAD_NOTHING));
    RunFirst(s2, LockExclusive(0), [Stamp(0, [])] + LOAD_NOTHING);
    assert s3 == s.(threads := [Locked], writer := Some(0), readers := {});
    RunFirst(s3, Stamp(0, []), LOAD_NOTHING);
    LoadNothing(Do(s3, Stamp(0, [])));
  }

  function FutureHistory(clock: int): History {
    History(Alone(clock, clock), [], [], 0, START_LOADING)
  }

  lemma FutureHistoryEnds(clock: int, time: int)
    requires clock < time
    ensures var h := FutureHistory(clock); var end := Ended(h, time);
      && Updated(h) == Some(Alone(clock, clock)) && end.Some?
      && end.value.threads == [Returned([], 1)] && end.value.loads == [Load(clock, []), Load(clock, [])]
  {
    var h := FutureHistory(clock);
    var s := Do(Alone(clock, clock), UpdateTimestamp(time));
    assert Updated(h) == Some(Alone(clock, clock)) && Started(h, time) == Some(s);
    StartLoading(Do(s, Start(0)));
  }

  lemma LoadingSetsNoStamp(time: int)
    ensures NoneBelow(START_LOADING, time)
  {
    assert forall step <- START_LOADING :: !step.UpdateTimestamp?;
  }

  /** A stamp in the future: the lookup does load, but at a time before the stamp. */
  lemma FutureStampIsMissed(clock: int, time: int)
    requires clock < time
    ensures var h := FutureHistory(clock); IsHistory(h, clock, time) && !IsFresh(h, time)
  {
    FutureHistoryEnds(clock, time);
    LoadingSetsNoStamp(time);
    assert NoneBelow([], time);
  }

  /** For which stamps, and at which clock, every lookup started later is fresh. */
  lemma FreshExactly(clock: int, time: int)
    ensures (forall h :: IsHistory(h, clock, time) ==> IsFresh(h, time)) <==> time <= clock
  {
    if time <= clock {
      forall h | IsHistory(h, clock, time) ensures IsFresh(h, time) {
        FreshLookup(h, clock, time);
      }
    } else {
      FutureStampIsMissed(clock, time);
    }
  }

  /**
   * Stamps that go back: after a stamp the settings are too old for, a lower one that they are
   * recent enough for hides it, and the next lookup returns what was loaded before either.
   */
  lemma StampGoingBackIsMissed(loaded: int, time: int, lower: int)
    requires lower <= loaded < time
    ensures Initial(Alone(time, loaded))
    ensures var end := Run(Alone(time, loaded),
                           [UpdateTimestamp(time)] + ([UpdateTimestamp(lower)] + ([Start(0)] + SKIP_LOADING)));
      && end.Some? && end.value.loads == [Load(loaded, [])] && end.value.threads == [Returned([], 0)]
      && end.value.loads[0].began < time
  {
    var s := Alone(time, loaded);
    var s1 := Do(s, UpdateTimestamp(time));
    var s2 := Do(s1, UpdateTimestamp(lower));
    RunFirst(s, UpdateTimestamp(time), [UpdateTimestamp(lower)] + ([Start(0)] + SKIP_LOADING));
    RunFirst(s1, UpdateTimestamp(lower), [Start(0)] + SKIP_LOADING);
    RunFirst(s2, Start(0), SKIP_LOADING);
    SkipLoading(Do(s2, Start(0)));
  }

  // ---- One thread: the code ----

  /** The entries in front of the first one that cannot be read. */
  function Readable(file: seq<Option<Entry>>): File {
    if file == [] || file[0].None? then [] else [file[0].value] + Readable(file[1..])
  }

  /** All entries in front of that one, and none behind it. */
  lemma {:induction false} ReadableExactly(file: seq<Option<Entry>>)
    ensures var r := Readable(file);
      && |r| <= |file| && (forall i :: 0 <= i < |r| ==> file[i] == Some(r[i]))
      && (|r| < |file| ==> file[|r|].None?)
  {
    if file != [] && file[0].Some? {
      ReadableExactly(file[1..]);
      var r := Readable(file);
      forall i | 0 <= i < |r| ensures file[i] == Some(r[i]) {
        assert i > 0 ==> file[1..][i - 1] == Some(r[i]);
      }
    }
  }

  class Settings {
    var settings: File
    var lastRead: int

    /** A missing or unreadable file is one without entries. */
    constructor (now: int, file: seq<Option<Entry>>)
      ensures settings == Readable(file) && lastRead == now
    {
      settings, lastRead := [], now;
      new;
      Load(now, file);
    }

    method Load(now: int, file: seq<Option<Entry>>)
      modifies this
      ensures settings == Readable(file) && lastRead == now
    {
      lastRead := now;
      settings := [];
      var i := 0;
      while i < |file| && file[i].Some?
        invariant 0 <= i <= |file| && lastRead == now
        invariant settings + Readable(file[i..]) == Readable(file)
      {
        assert file[i..][1..] == file[i + 1..];
        settings := settings + [file[i].value];
        i := i + 1;
      }
    }

    /** `operator[]`: settings older than the last update are loaded first. */
    method Get(url: string, lastUpdated: int, now: int, file: seq<Option<Entry>>, matches: (string, string) -> bool)
      returns (result: HttpConfig)
      requires lastRead <= now
      modifies this
      ensures settings == (if old(lastRead) < lastUpdated then Readable(file) else old(settings))
      ensures lastRead == (if old(lastRead) < lastUpdated then now else old(lastRead))
      ensures lastUpdated <= now ==> lastUpdated <= lastRead
      ensures fresh(result) && result.Value() == MergeAll(Matching(settings, url, matches))
    {
      if lastRead < lastUpdated {
        Load(now, file);
      }
      result := Lookup(settings, url, matches);
    }
  }
}
