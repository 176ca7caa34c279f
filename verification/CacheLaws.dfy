/** That a good cache is used, that a bad one is repaired, and that a process never gets stuck. */
module CacheLaws {
  import opened Ordering
  import opened Digests
  import opened CacheInstall

  // ---------------------------------------------------------------- a good cache is used

  /** Where a process can stand when the locked binary was there from the start. */
  predicate JustLooking(lock: Lock, p: Phase) {
    match p
    case Ready => true
    case ToHash => true
    case Hashed(d) => d == lock.digest
    case Looked(digestOk, executable) => digestOk && executable
    case Hit => true
    case Failed => true
    case Crashed => true
    case _ => false
  }

  ghost predicate NoFaults(events: seq<Event>, n: nat)
    requires n <= |events|
  {
    forall i :: 0 <= i < n ==> !events[i].action.Fault?
  }

  ghost predicate AllJustLook(lock: Lock, initial: Entry, s: State, sound: bool) {
    && s.entry == initial
    && forall p :: 0 <= p < |s.phases| ==> JustLooking(lock, s.phases[p]) && (sound ==> !s.phases[p].Failed?)
  }

  lemma LookingGoesOn(lock: Lock, initial: Entry, s: State, e: Event, t: State, sound: bool)
    requires IsGood(lock, initial) && AllJustLook(lock, initial, s, sound) && Next(lock, s, e, t)
    ensures AllJustLook(lock, initial, t, sound && !e.action.Fault?)
  {
    var p := e.process;
    assert JustLooking(lock, s.phases[p]);
    forall q | 0 <= q < |t.phases|
      ensures JustLooking(lock, t.phases[q]) && (sound && !e.action.Fault? ==> !t.phases[q].Failed?)
    {
      if q != p { assert JustLooking(lock, s.phases[q]); }
    }
  }

  lemma {:induction false} AllKeepLooking(lock: Lock, initial: Entry, states: seq<State>, events: seq<Event>, n: nat)
    requires IsRun(lock, initial, states, events) && n <= |events| && IsGood(lock, initial)
    ensures AllJustLook(lock, initial, states[n], NoFaults(events, n))
  {
    hide Next, JustLooking;
    if n == 0 {
      forall p | 0 <= p < |states[0].phases| ensures JustLooking(lock, states[0].phases[p]) { ReadyLooks(lock); }
    } else {
      AllKeepLooking(lock, initial, states, events, n - 1);
      LookingGoesOn(lock, initial, states[n - 1], events[n - 1], states[n], NoFaults(events, n - 1));
      assert NoFaults(events, n) ==> NoFaults(events, n - 1) && !events[n - 1].action.Fault?;
    }
  }

  lemma ReadyLooks(lock: Lock)
    ensures JustLooking(lock, Ready)
  {
  }

  /**
   * Where the locked binary is at first, no run of any processes ever touches it: nobody acquires
   * anything, and who stops without a fault or a crash has a hit.
   */
  lemma GoodCacheIsKept(lock: Lock, initial: Entry, states: seq<State>, events: seq<Event>, n: nat, p: nat)
    requires IsRun(lock, initial, states, events) && n <= |events| && IsGood(lock, initial)
    requires p < |states[n].phases|
    ensures states[n].entry == initial
    ensures !states[n].phases[p].ToAcquire? && !states[n].phases[p].DropLink? && !states[n].phases[p].DropStale?
    ensures Stopped(states[n].phases[p]) && !states[n].phases[p].Crashed? && NoFaults(events, n) ==>
      states[n].phases[p].Hit?
  {
    hide Next, IsGood;
    AllKeepLooking(lock, initial, states, events, n);
    assert JustLooking(lock, states[n].phases[p]);
  }

  // ---------------------------------------------------------------- a process by itself

  /** Anything but the locked binary and what no `unlink` removes. */
  predicate IsRepairable(lock: Lock, initial: Entry) { !IsGood(lock, initial) && !initial.OtherKind? }

  /** What holds at each phase when nothing else touches the path. */
  ghost predicate Stands(lock: Lock, initial: Entry, entry: Entry, p: Phase) {
    match p
    case Ready => entry == initial
    case DropLink => entry == initial == Symlink
    case ToHash => entry == initial && initial.File?
    case Hashed(d) => entry == initial && initial.File? && d == Sha256(initial.content)
    case Looked(digestOk, executable) =>
      entry == initial && initial.File? && executable == initial.executable
      && (digestOk <==> Sha256(initial.content) == lock.digest)
    case DropStale => entry == initial && initial.File? && IsRepairable(lock, initial)
    case Hit => entry == initial && IsGood(lock, initial)
    case Installed => IsRepairable(lock, initial) && IsGood(lock, entry)
    case Done => IsRepairable(lock, initial) && IsGood(lock, entry)
    case Failed => (initial.OtherKind? && entry == initial) || (IsRepairable(lock, initial) && entry == Absent)
    case Crashed => false
    case ToAcquire => IsRepairable(lock, initial) && entry == Absent
    case Acquired(b) => IsRepairable(lock, initial) && entry == Absent && IsLocked(lock, b)
    case Writing(b, t) => IsRepairable(lock, initial) && entry == Absent && IsLocked(lock, b) && t.content <= b
    case Written(t) => IsRepairable(lock, initial) && entry == Absent && IsLocked(lock, t.content)
    case Executable(t) => IsRepairable(lock, initial) && entry == Absent && IsLocked(lock, t.content) && t.executable
  }

  /** The process was handed bytes other than the locked ones, or none. */
  ghost predicate WrongFetch(lock: Lock, e: Event) {
    e.action.Fetch? && (e.action.got.None? || !IsLocked(lock, e.action.got.value))
  }

  ghost predicate Undisturbed(states: seq<State>, events: seq<Event>) {
    && (forall i :: 0 <= i < |states| ==> |states[i].phases| == 1)
    && forall i :: 0 <= i < |events| ==> !events[i].action.Crash? && !events[i].action.Fault?
  }

  lemma StandsGoOn(lock: Lock, initial: Entry, s: State, e: Event, t: State)
    requires |s.phases| == 1 == |t.phases| && Next(lock, s, e, t) && !e.action.Crash? && !e.action.Fault?
    requires Stands(lock, initial, s.entry, s.phases[0])
    ensures Stands(lock, initial, t.entry, t.phases[0])
    ensures t.phases[0].Failed? && IsRepairable(lock, initial) ==> WrongFetch(lock, e)
  {
  }

  lemma {:induction false} AloneStands(lock: Lock, initial: Entry, states: seq<State>, events: seq<Event>, n: nat)
    requires IsRun(lock, initial, states, events) && Undisturbed(states, events) && n <= |events|
    ensures Stands(lock, initial, states[n].entry, states[n].phases[0])
    ensures states[n].phases[0].Failed? && IsRepairable(lock, initial) ==>
      exists i :: 0 <= i < n && WrongFetch(lock, events[i])
  {
    hide Next, IsRepairable, WrongFetch;
    if n > 0 {
      AloneStands(lock, initial, states, events, n - 1);
      NoMoveAfterEnd(lock, states[n - 1], events[n - 1], states[n]);
      StandsGoOn(lock, initial, states[n - 1], events[n - 1], states[n]);
    }
  }

  lemma NoMoveAfterEnd(lock: Lock, s: State, e: Event, t: State)
    requires Next(lock, s, e, t)
    ensures !Stopped(s.phases[e.process])
  {
  }

  /**
   * What one process makes of the path when it comes to its end by itself: the good binary is a hit
   * and left alone, a thing that is no file is left alone, and whatever else is there is replaced by
   * the locked binary, unless something else was fetched; then nothing is left.
   */
  lemma AloneOutcome(lock: Lock, initial: Entry, states: seq<State>, events: seq<Event>)
    requires IsRun(lock, initial, states, events) && Undisturbed(states, events)
    requires Stopped(states[|events|].phases[0])
    ensures var p, entry := states[|events|].phases[0], states[|events|].entry;
      if IsGood(lock, initial) then p.Hit? && entry == initial
      else if initial.OtherKind? then p.Failed? && entry == initial
      else if exists i :: 0 <= i < |events| && WrongFetch(lock, events[i]) then p.Failed? && entry == Absent
      else p.Done? && IsGood(lock, entry)
  {
    hide Next, IsLocked, WrongFetch;
    AloneStands(lock, initial, states, events, |events|);
    if exists i :: 0 <= i < |events| && WrongFetch(lock, events[i]) {
      var i :| 0 <= i < |events| && WrongFetch(lock, events[i]);
      WrongFetchIsTheEnd(lock, initial, states, events, i);
    }
  }

  lemma {:induction false} EndIsTheEnd(lock: Lock, initial: Entry, states: seq<State>, events: seq<Event>, i: nat)
    requires IsRun(lock, initial, states, events) && Undisturbed(states, events)
    requires i <= |events| && Stopped(states[i].phases[0])
    ensures i == |events|
  {
    if i < |events| {
      assert Next(lock, states[i], events[i], states[i + 1]);
      assert events[i].process == 0;
      NoMoveAfterEnd(lock, states[i], events[i], states[i + 1]);
    }
  }

  lemma WrongFetchIsTheEnd(lock: Lock, initial: Entry, states: seq<State>, events: seq<Event>, i: nat)
    requires IsRun(lock, initial, states, events) && Undisturbed(states, events)
    requires i < |events| && WrongFetch(lock, events[i])
    ensures i + 1 == |events| && states[|events|].phases[0].Failed?
  {
    assert Next(lock, states[i], events[i], states[i + 1]);
    assert events[i].process == 0;
    assert states[i + 1].phases[0].Failed?;
    EndIsTheEnd(lock, initial, states, events, i + 1);
  }

  /** A process that came to its end by installing has itself replaced whatever it unlinked. */
  lemma AloneInstallsAfterUnlinking(lock: Lock, initial: Entry, states: seq<State>, events: seq<Event>)
    requires IsRun(lock, initial, states, events) && Undisturbed(states, events)
    requires states[|events|].phases[0].Done?
    ensures EveryUnlinkerInstalls(states, events)
  {
    hide Next;
    ReturnedMeansSettled(lock, initial, states, events, |events|, 0);
    var j :| 0 <= j < |events| && ReplaceAt(states, events, j);
    forall i | 0 <= i < |events| ensures events[i].process == 0 {
      MoverIsThere(lock, states[i], events[i], states[i + 1]);
    }
  }

  lemma MoverIsThere(lock: Lock, s: State, e: Event, t: State)
    requires Next(lock, s, e, t)
    ensures e.process < |s.phases|
  {
  }

  // ---------------------------------------------------------------- each process can go on

  /** A process that has not stopped has a step of its own to take, whatever the others did to the path. */
  lemma NeverStuck(lock: Lock, s: State, p: nat)
    requires p < |s.phases| && !Stopped(s.phases[p])
    requires s.phases[p].Writing? ==> s.phases[p].temp.content <= s.phases[p].bytes
    ensures exists a: Action, t: State :: !a.Crash? && !a.Fault? && Next(lock, s, Event(p, a), t)
  {
    var phase := s.phases[p];
    var a := NextAction(phase);
    var move := Move(lock, s.entry, phase, a);
    assert move.Some?;
    assert Next(lock, s, Event(p, a), State(move.value.1, s.phases[p := move.value.0]));
  }

  function NextAction(p: Phase): Action
    requires !Stopped(p)
  {
    match p
    case Ready => FirstLook
    case DropLink => Unlink
    case ToHash => Hash
    case Hashed(_) => FinalLook
    case Looked(_, _) => Judge
    case DropStale => Unlink
    case ToAcquire => Fetch(None)
    case Acquired(_) => OpenTemp
    case Writing(bytes, _) => Write(|bytes|)
    case Written(_) => Chmod
    case Executable(_) => Replace
    case Installed => Finish
  }

  /** A process that saw something raises when it finds it gone: it goes on only to remove it, and fails to. */
  lemma VanishedEntryRaises(lock: Lock, p: Phase, a: Action, q: Phase, entry: Entry)
    requires p.DropLink? || p.ToHash? || p.Hashed? || p.Looked? || p.DropStale?
    requires Move(lock, Absent, p, a) == Some((q, entry))
    ensures entry == Absent && (q.Failed? || q.Crashed? || (p.Looked? && !p.digestOk && q.DropStale?)
                                || (p.Looked? && !p.executable && q.DropStale?))
  {
  }

  /** Nothing is fetched before the process saw nothing or removed what was there. */
  lemma FetchingNeedsAnEmptyPath(lock: Lock, s: State, e: Event, t: State)
    requires Next(lock, s, e, t) && t.phases[e.process].ToAcquire?
    ensures t.entry == Absent && (s.entry == Absent ==> e.action.FirstLook?)
  {
  }
}
