/**
 * Any number of processes that check, drop, fetch and install one cached executable. Each process
 * runs the program's steps in order; steps of different processes interleave at will, and a process
 * may die between any two of them.
 */
module CacheInstall {
  import opened Ordering
  import opened Digests

  /** What the shared path holds. */
  datatype Entry = Absent | File(content: Bytes, executable: bool) | Symlink | OtherKind

  /** A private temporary file. */
  datatype Temp = Temp(content: Bytes, executable: bool)

  /** The reviewed lock: the digest and size of the binary. */
  datatype Lock = Lock(digest: Digest, size: nat)

  /** Where a process stands, with the values it carries. */
  datatype Phase =
    | Ready
    | DropLink                                             // the first look saw a symbolic link
    | ToHash                                               // the first look saw a regular file
    | Hashed(digest: Digest)                               // the content was read
    | Looked(digestOk: bool, executable: bool)             // the final mode was read
    | DropStale                                            // the verdict was: not the locked binary
    | ToAcquire
    | Acquired(bytes: Bytes)
    | Writing(bytes: Bytes, temp: Temp)                    // a private temporary file is being filled
    | Written(temp: Temp)
    | Executable(temp: Temp)                               // after `chmod`
    | Installed
    | Hit                                                  // returned on a cache hit
    | Done                                                 // returned after installing
    | Failed                                               // raised
    | Crashed

  predicate Stopped(p: Phase) { p.Hit? || p.Done? || p.Failed? || p.Crashed? }

  predicate Returned(p: Phase) { p.Hit? || p.Done? }

  datatype Action =
    | FirstLook | Unlink | Hash | FinalLook | Judge | Fetch(got: Option<Bytes>)
    | OpenTemp | Write(upTo: nat) | Chmod | Replace | Finish | Fault | Crash

  datatype Event = Event(process: nat, action: Action)

  datatype State = State(entry: Entry, phases: seq<Phase>)

  predicate IsLocked(lock: Lock, bytes: Bytes) { Sha256(bytes) == lock.digest && |bytes| == lock.size }

  /** The complete locked binary with the execute bit. */
  predicate IsGood(lock: Lock, entry: Entry) {
    entry.File? && IsLocked(lock, entry.content) && entry.executable
  }

  /**
   * One step: the phase a process goes to and what the shared path then holds. `None` when the
   * process is not at such a step.
   */
  function Move(lock: Lock, entry: Entry, phase: Phase, action: Action): Option<(Phase, Entry)>
  {
    match (phase, action)
    // any unfinished process may be killed; any system call of it may raise
    case (_, Crash) => if Stopped(phase) then None else Some((Crashed, entry))
    case (_, Fault) => if Stopped(phase) then None else Some((Failed, entry))
    case (Ready, FirstLook) =>
      Some((match entry
            case Absent => ToAcquire
            case Symlink => DropLink
            case File(_, _) => ToHash
            case OtherKind => Failed, entry))
    case (DropLink, Unlink) => Some(if Removable(entry) then (ToAcquire, Absent) else (Failed, entry))
    case (ToHash, Hash) => Some((if entry.File? then Hashed(Sha256(entry.content)) else Failed, entry))
    case (Hashed(d), FinalLook) =>
      Some((match entry
            case Absent => Failed
            case File(_, x) => Looked(d == lock.digest, x)
            case _ => Looked(false, false), entry))
    case (Looked(digestOk, x), Judge) =>
      // the size is read only when the digest and the kind were right
      Some((if digestOk && entry == Absent then Failed
            else if digestOk && x && entry.File? && |entry.content| == lock.size then Hit
            else DropStale, entry))
    case (DropStale, Unlink) => Some(if Removable(entry) then (ToAcquire, Absent) else (Failed, entry))
    case (ToAcquire, Fetch(got)) =>
      Some((if got.Some? && IsLocked(lock, got.value) then Acquired(got.value) else Failed, entry))
    case (Acquired(bytes), OpenTemp) => Some((Writing(bytes, Temp([], false)), entry))
    case (Writing(bytes, temp), Write(m)) =>
      // more of the bytes reach the file; the file is closed once they all have
      var n := |temp.content|;
      if n < m <= |bytes| || m == n == |bytes| then
        var more := temp.(content := temp.content + bytes[n..m]);
        Some((if m == |bytes| then Written(more) else Writing(bytes, more), entry))
      else None
    case (Written(temp), Chmod) => Some((Executable(temp.(executable := true)), entry))
    case (Executable(temp), Replace) =>
      Some(if entry.OtherKind? then (Failed, entry) else (Installed, File(temp.content, temp.executable)))
    case (Installed, Finish) => Some((Done, entry))
    case _ => None
  }

  /** `unlink` fails on nothing and on a directory. */
  predicate Removable(entry: Entry) { entry.File? || entry.Symlink? }

  predicate Next(lock: Lock, s: State, e: Event, t: State) {
    && e.process < |s.phases|
    && var move := Move(lock, s.entry, s.phases[e.process], e.action);
    && move.Some?
    && t == State(move.value.1, s.phases[e.process := move.value.0])
  }

  predicate Unlinks(s: State, e: Event, t: State) { e.action.Unlink? && t.entry != s.entry }

  predicate Replaces(s: State, e: Event, t: State) {
    e.action.Replace? && e.process < |t.phases| && t.phases[e.process].Installed?
  }

  /** Step `i` took the entry away. */
  ghost predicate UnlinkAt(states: seq<State>, events: seq<Event>, i: nat)
    requires |states| == |events| + 1 && i < |events|
  {
    Unlinks(states[i], events[i], states[i + 1])
  }

  /** Step `i` put the binary in place. */
  ghost predicate ReplaceAt(states: seq<State>, events: seq<Event>, i: nat)
    requires |states| == |events| + 1 && i < |events|
  {
    Replaces(states[i], events[i], states[i + 1])
  }

  /** `states[i]` goes to `states[i + 1]` by `events[i]`; every process begins at the first step. */
  ghost predicate IsRun(lock: Lock, initial: Entry, states: seq<State>, events: seq<Event>) {
    && |states| == |events| + 1
    && states[0].entry == initial
    && (forall p :: 0 <= p < |states[0].phases| ==> states[0].phases[p] == Ready)
    && forall i :: 0 <= i < |events| ==> Next(lock, states[i], events[i], states[i + 1])
  }

  ghost predicate ReplacedBefore(states: seq<State>, events: seq<Event>, n: nat)
    requires |states| == |events| + 1 && n <= |events|
  {
    exists i :: 0 <= i < n && ReplaceAt(states, events, i)
  }

  // ---------------------------------------------------------------- the shared path is never partial

  /** What is known of a process; `replaced` says whether some process has replaced the entry yet. */
  ghost predicate PhaseFits(lock: Lock, initial: Entry, replaced: bool, p: Phase) {
    match p
    case Acquired(b) => IsLocked(lock, b)
    case Writing(b, t) => IsLocked(lock, b) && t.content <= b
    case Written(t) => IsLocked(lock, t.content)
    case Executable(t) => IsLocked(lock, t.content) && t.executable
    case Hashed(d) => d == lock.digest ==> replaced || (initial.File? && Sha256(initial.content) == lock.digest)
    case Looked(true, true) => replaced || IsGoodButSize(lock, initial)
    case _ => true
  }

  predicate IsGoodButSize(lock: Lock, entry: Entry) {
    entry.File? && Sha256(entry.content) == lock.digest && entry.executable
  }

  ghost predicate EntryFits(lock: Lock, initial: Entry, replaced: bool, entry: Entry) {
    entry == Absent || (if replaced then IsGood(lock, entry) else entry == initial)
  }

  ghost predicate StateFits(lock: Lock, initial: Entry, replaced: bool, s: State) {
    && EntryFits(lock, initial, replaced, s.entry)
    && forall p :: 0 <= p < |s.phases| ==> PhaseFits(lock, initial, replaced, s.phases[p])
  }

  lemma MoveKeepsFit(lock: Lock, initial: Entry, replaced: bool, s: State, e: Event, t: State)
    requires StateFits(lock, initial, replaced, s) && Next(lock, s, e, t)
    ensures StateFits(lock, initial, replaced || Replaces(s, e, t), t)
  {
    var p := e.process;
    assert PhaseFits(lock, initial, replaced, s.phases[p]);
    forall q | 0 <= q < |t.phases| ensures PhaseFits(lock, initial, replaced || Replaces(s, e, t), t.phases[q]) {
      if q != p { assert PhaseFits(lock, initial, replaced, s.phases[q]); }
    }
  }

  lemma {:induction false} RunFits(lock: Lock, initial: Entry, states: seq<State>, events: seq<Event>, n: nat)
    requires IsRun(lock, initial, states, events) && n <= |events|
    ensures StateFits(lock, initial, ReplacedBefore(states, events, n), states[n])
  {
    if n > 0 {
      RunFits(lock, initial, states, events, n - 1);
      MoveKeepsFit(lock, initial, ReplacedBefore(states, events, n - 1), states[n - 1], events[n - 1], states[n]);
      assert ReplacedBefore(states, events, n) <==>
        ReplacedBefore(states, events, n - 1) || ReplaceAt(states, events, n - 1);
    }
  }

  /**
   * In every interleaving, with crashes anywhere, the shared path holds nothing, what it held at
   * first, or the complete locked binary; once some process has replaced it, not even the second.
   */
  lemma NeverPartial(lock: Lock, initial: Entry, states: seq<State>, events: seq<Event>, n: nat)
    requires IsRun(lock, initial, states, events) && n <= |events|
    ensures var entry := states[n].entry;
      && (entry == Absent || entry == initial || IsGood(lock, entry))
      && (ReplacedBefore(states, events, n) ==> entry == Absent || IsGood(lock, entry))
  {
    RunFits(lock, initial, states, events, n);
  }

  // ---------------------------------------------------------------- a returned path was good

  /** A process that reports a hit did so on the complete locked binary. */
  lemma HitWasGood(lock: Lock, initial: Entry, states: seq<State>, events: seq<Event>, i: nat)
    requires IsRun(lock, initial, states, events) && i < |events|
    requires events[i].action == Judge && states[i + 1].phases[events[i].process].Hit?
    ensures IsGood(lock, states[i].entry)
  {
    RunFits(lock, initial, states, events, i);
    assert PhaseFits(lock, initial, ReplacedBefore(states, events, i), states[i].phases[events[i].process]);
  }

  // ---------------------------------------------------------------- where a run ends

  /** The last change of the shared path before step `n` was an unlink, and nothing replaced it since. */
  ghost predicate LeftUnlinked(states: seq<State>, events: seq<Event>, n: nat)
    requires |states| == |events| + 1 && n <= |events|
  {
    exists i :: 0 <= i < n && UnlinkAt(states, events, i)
      && forall j :: i < j < n ==> !ReplaceAt(states, events, j)
  }

  lemma MoveChangesEntry(lock: Lock, s: State, e: Event, t: State)
    requires Next(lock, s, e, t)
    ensures Replaces(s, e, t) ==> t.entry.File?
    ensures Unlinks(s, e, t) ==> t.entry == Absent && s.entry != Absent && !Replaces(s, e, t)
    ensures !Replaces(s, e, t) && !Unlinks(s, e, t) ==> t.entry == s.entry
  {
  }

  lemma UnlinkedOneStepOn(states: seq<State>, events: seq<Event>, n: nat)
    requires |states| == |events| + 1 && 0 < n <= |events|
    ensures LeftUnlinked(states, events, n) <==>
      || UnlinkAt(states, events, n - 1)
      || (LeftUnlinked(states, events, n - 1) && !ReplaceAt(states, events, n - 1))
  {
    if LeftUnlinked(states, events, n - 1) && !ReplaceAt(states, events, n - 1) {
      var i :| 0 <= i < n - 1 && UnlinkAt(states, events, i)
        && forall j :: i < j < n - 1 ==> !ReplaceAt(states, events, j);
      assert forall j :: i < j < n ==> !ReplaceAt(states, events, j);
    }
  }

  /** Once something was installed or something was there at first, only an unlink leaves nothing behind. */
  lemma {:induction false} AbsentMeansUnlinked(lock: Lock, initial: Entry, states: seq<State>, events: seq<Event>,
                                               n: nat)
    requires IsRun(lock, initial, states, events) && n <= |events|
    ensures states[n].entry == Absent <==>
      LeftUnlinked(states, events, n) || (initial == Absent && !ReplacedBefore(states, events, n))
  {
    hide Next, LeftUnlinked;
    if n > 0 {
      AbsentMeansUnlinked(lock, initial, states, events, n - 1);
      UnlinkedOneStepOn(states, events, n);
      MoveChangesEntry(lock, states[n - 1], events[n - 1], states[n]);
      assert ReplacedBefore(states, events, n) <==>
        ReplacedBefore(states, events, n - 1) || ReplaceAt(states, events, n - 1);
    } else {
      NothingLeftUnlinked(states, events);
    }
  }

  lemma NothingLeftUnlinked(states: seq<State>, events: seq<Event>)
    requires |states| == |events| + 1
    ensures !LeftUnlinked(states, events, 0)
  {
  }

  /** A process that returned either found the good binary or installed it. */
  ghost predicate Settled(lock: Lock, initial: Entry, replaced: bool, p: Phase) {
    (p.Hit? ==> replaced || IsGood(lock, initial)) && (p.Done? || p.Installed? ==> replaced)
  }

  lemma {:induction false} ReturnedMeansSettled(lock: Lock, initial: Entry, states: seq<State>, events: seq<Event>,
                                                n: nat, p: nat)
    requires IsRun(lock, initial, states, events) && n <= |events| && p < |states[n].phases|
    ensures Settled(lock, initial, ReplacedBefore(states, events, n), states[n].phases[p])
  {
    if n > 0 {
      var e := events[n - 1];
      ReturnedMeansSettled(lock, initial, states, events, n - 1, p);
      assert ReplacedBefore(states, events, n) <==>
        ReplacedBefore(states, events, n - 1) || ReplaceAt(states, events, n - 1);
      if e.process == p && states[n].phases[p].Hit? {
        RunFits(lock, initial, states, events, n - 1);
        assert PhaseFits(lock, initial, ReplacedBefore(states, events, n - 1), states[n - 1].phases[p]);
      }
    }
  }

  /**
   * When some process has returned normally, the shared path holds the locked binary at the end
   * unless its last change was an unlink; a stale verdict that unlinks a good binary on the way does
   * no harm as long as a replacement follows.
   */
  lemma EndsGood(lock: Lock, initial: Entry, states: seq<State>, events: seq<Event>, p: nat)
    requires IsRun(lock, initial, states, events)
    requires p < |states[|events|].phases| && Returned(states[|events|].phases[p])
    ensures IsGood(lock, states[|events|].entry) <==> !LeftUnlinked(states, events, |events|)
  {
    var n := |events|;
    ReturnedMeansSettled(lock, initial, states, events, n, p);
    AbsentMeansUnlinked(lock, initial, states, events, n);
    RunFits(lock, initial, states, events, n);
  }

  /** Each process that took the entry away also reached its own replacement. */
  ghost predicate EveryUnlinkerInstalls(states: seq<State>, events: seq<Event>)
    requires |states| == |events| + 1
  {
    forall i :: 0 <= i < |events| && UnlinkAt(states, events, i) ==>
      exists j :: 0 <= j < |events| && events[j].process == events[i].process && ReplaceAt(states, events, j)
  }

  /** How far along the program a phase is. */
  function Rank(p: Phase): nat {
    match p
    case Ready => 0
    case DropLink => 1
    case ToHash => 1
    case Hashed(_) => 2
    case Looked(_, _) => 3
    case DropStale => 4
    case ToAcquire => 5
    case Acquired(_) => 6
    case Writing(_, _) => 7
    case Written(_) => 8
    case Executable(_) => 9
    case Installed => 10
    case _ => 11
  }

  lemma MoveGoesOn(lock: Lock, s: State, e: Event, t: State, p: nat)
    requires Next(lock, s, e, t) && p < |s.phases|
    ensures p < |t.phases| && Rank(s.phases[p]) <= Rank(t.phases[p])
  {
  }

  lemma {:induction false} RanksGrow(lock: Lock, initial: Entry, states: seq<State>, events: seq<Event>, i: nat,
                                     j: nat, p: nat)
    requires IsRun(lock, initial, states, events) && i <= j <= |events| && p < |states[i].phases|
    ensures p < |states[j].phases| && Rank(states[i].phases[p]) <= Rank(states[j].phases[p])
    decreases j
  {
    if i < j {
      RanksGrow(lock, initial, states, events, i, j - 1, p);
      MoveGoesOn(lock, states[j - 1], events[j - 1], states[j], p);
    }
  }

  /** No process unlinks after its own replacement. */
  lemma UnlinkComesFirst(lock: Lock, initial: Entry, states: seq<State>, events: seq<Event>, i: nat, j: nat)
    requires IsRun(lock, initial, states, events) && i < |events| && j < |events|
    requires UnlinkAt(states, events, i) && ReplaceAt(states, events, j)
    requires events[i].process == events[j].process
    ensures i < j
  {
    var p := events[i].process;
    assert Next(lock, states[i], events[i], states[i + 1]) && Next(lock, states[j], events[j], states[j + 1]);
    if j < i {
      RanksGrow(lock, initial, states, events, j + 1, i, p);
    }
  }

  /**
   * In any run where every process that unlinked the entry also reached its own replacement, and at
   * least one process returned normally, the shared path ends up holding the locked binary.
   */
  lemma InstallersLeaveItGood(lock: Lock, initial: Entry, states: seq<State>, events: seq<Event>, p: nat)
    requires IsRun(lock, initial, states, events)
    requires p < |states[|events|].phases| && Returned(states[|events|].phases[p])
    requires EveryUnlinkerInstalls(states, events)
    ensures IsGood(lock, states[|events|].entry)
  {
    var n := |events|;
    if LeftUnlinked(states, events, n) {
      var i :| 0 <= i < n && UnlinkAt(states, events, i)
        && forall j :: i < j < n ==> !ReplaceAt(states, events, j);
      var j :| 0 <= j < n && events[j].process == events[i].process && ReplaceAt(states, events, j);
      UnlinkComesFirst(lock, initial, states, events, i, j);
      assert false;
    }
    EndsGood(lock, initial, states, events, p);
  }

  function Two(entry: Entry, first: Phase, second: Phase): State { State(entry, [first, second]) }

  /** A run of two processes that ends with the path empty. */
  ghost predicate StaleRun(good: Bytes, bad: Entry, states: seq<State>, events: seq<Event>) {
    var d := Sha256([]);
    && bad == File([], false)
    && events == [
      Event(0, FirstLook), Event(0, Hash), Event(0, FinalLook), Event(0, Judge),
      Event(1, FirstLook), Event(1, Hash), Event(1, FinalLook), Event(1, Judge),
      Event(1, Unlink), Event(1, Fetch(Some(good))),
      Event(1, OpenTemp), Event(1, Write(|good|)), Event(1, Chmod), Event(1, Replace), Event(1, Finish),
      Event(0, Unlink), Event(0, Crash)]
    && states == [
      Two(bad, Ready, Ready), Two(bad, ToHash, Ready), Two(bad, Hashed(d), Ready),
      Two(bad, Looked(false, false), Ready),
      Two(bad, DropStale, Ready), Two(bad, DropStale, ToHash), Two(bad, DropStale, Hashed(d)),
      Two(bad, DropStale, Looked(false, false)), Two(bad, DropStale, DropStale), Two(Absent, DropStale, ToAcquire),
      Two(Absent, DropStale, Acquired(good)), Two(Absent, DropStale, Writing(good, Temp([], false))),
      Two(Absent, DropStale, Written(Temp(good, false))),
      Two(Absent, DropStale, Executable(Temp(good, true))), Two(File(good, true), DropStale, Installed),
      Two(File(good, true), DropStale, Done),
      Two(Absent, ToAcquire, Done), Two(Absent, Crashed, Done)]
  }

  lemma StaleRunOpens(lock: Lock, good: Bytes, bad: Entry, states: seq<State>, events: seq<Event>, i: nat)
    requires IsLocked(lock, good) && good != [] && lock.digest != Sha256([])
    requires StaleRun(good, bad, states, events) && 0 <= i < 6
    ensures Next(lock, states[i], events[i], states[i + 1])
  {
  }

  lemma StaleRunRepairs(lock: Lock, good: Bytes, bad: Entry, states: seq<State>, events: seq<Event>, i: nat)
    requires IsLocked(lock, good) && good != [] && lock.digest != Sha256([])
    requires StaleRun(good, bad, states, events) && 6 <= i < 12
    ensures Next(lock, states[i], events[i], states[i + 1])
  {
    assert [] + good[0..|good|] == good;
  }

  lemma StaleRunEnds(lock: Lock, good: Bytes, bad: Entry, states: seq<State>, events: seq<Event>, i: nat)
    requires IsLocked(lock, good) && good != [] && lock.digest != Sha256([])
    requires StaleRun(good, bad, states, events) && 12 <= i < 17
    ensures Next(lock, states[i], events[i], states[i + 1])
  {
  }

  lemma StaleRunIsARun(lock: Lock, good: Bytes, bad: Entry, states: seq<State>, events: seq<Event>)
    requires IsLocked(lock, good) && good != [] && lock.digest != Sha256([])
    requires StaleRun(good, bad, states, events)
    ensures IsRun(lock, bad, states, events)
  {
    hide Next;
    forall i | 0 <= i < 17 ensures Next(lock, states[i], events[i], states[i + 1]) {
      if i < 6 { StaleRunOpens(lock, good, bad, states, events, i); }
      else if i < 12 { StaleRunRepairs(lock, good, bad, states, events, i); }
      else { StaleRunEnds(lock, good, bad, states, events, i); }
    }
  }

  /**
   * The condition is needed: one process judges a bad entry, another replaces it and returns, and the
   * first then unlinks the good binary on its stale verdict and dies.
   */
  lemma StaleVerdictThenCrash(lock: Lock, good: Bytes, bad: Entry, states: seq<State>, events: seq<Event>)
    requires IsLocked(lock, good) && good != [] && lock.digest != Sha256([])
    requires StaleRun(good, bad, states, events)
    ensures IsRun(lock, bad, states, events)
    ensures Returned(states[17].phases[1]) && (forall p :: 0 <= p < 2 ==> Stopped(states[17].phases[p]))
    ensures states[17].entry == Absent && !EveryUnlinkerInstalls(states, events)
  {
    hide Next, IsRun;
    StaleRunIsARun(lock, good, bad, states, events);
    assert UnlinkAt(states, events, 15);
    forall j | 0 <= j < 17 && events[j].process == 0 ensures !ReplaceAt(states, events, j) {
      assert events[j].action != Replace;
    }
  }
}
