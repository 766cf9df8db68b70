/** What a crash during a memory swap leaves behind, once the swap has been recovered. */
module MemoryCrash {
  import opened Options
  import opened MemorySwap

  /** A swap between two named profiles, with a memory to put away and no swap pending. */
  predicate Starts<C>(d: Disk<C>, plan: Plan) {
    && Named(plan.oldProfile) && Named(plan.newProfile) && plan.oldProfile != plan.newProfile
    && Active in d.dirs && d.marker == NoMarker
  }

  /** The same directory, or none, stands under the name. */
  predicate SameAt<C>(d: Disk<C>, d0: Disk<C>, name: Name) {
    && (name in d.dirs <==> name in d0.dirs)
    && (name in d.dirs ==> d.dirs[name] == d0.dirs[name])
  }

  /** The old memory is still the active one. An older stash of it may have become a backup. */
  predicate Stayed<C>(d: Disk<C>, d0: Disk<C>, plan: Plan)
    requires Starts(d0, plan)
  {
    var mine := Stash(plan.oldProfile.value);
    && StandsAt(d.dirs, Active, d0.dirs[Active])
    && SameAt(d, d0, Stash(plan.newProfile.value))
    && (mine in d.dirs ==> SameAt(d, d0, mine))
  }

  /** The old memory is put away and nothing has taken its place yet. */
  predicate PutAway<C>(d: Disk<C>, d0: Disk<C>, plan: Plan)
    requires Starts(d0, plan)
  {
    && StandsAt(d.dirs, Stash(plan.oldProfile.value), d0.dirs[Active])
    && Active !in d.dirs
    && SameAt(d, d0, Stash(plan.newProfile.value))
  }

  /**
   The old memory is in its stash. The new profile's stash is the active memory; when there was none,
   the active memory is missing, or is a directory that did not exist before and is empty.
   */
  ghost predicate Swapped<C>(d: Disk<C>, d0: Disk<C>, plan: Plan, empty: C)
    requires Starts(d0, plan)
  {
    var theirs := Stash(plan.newProfile.value);
    && StandsAt(d.dirs, Stash(plan.oldProfile.value), d0.dirs[Active])
    && theirs !in d.dirs
    && (theirs in d0.dirs ==> StandsAt(d.dirs, Active, d0.dirs[theirs]))
    && (theirs !in d0.dirs && Active in d.dirs ==>
          |d0.contents| <= d.dirs[Active] < |d.contents| && d.contents[d.dirs[Active]] == empty)
  }

  ghost predicate Pending<C>(d: Disk<C>, d0: Disk<C>, plan: Plan, empty: C)
    requires Starts(d0, plan)
  {
    || Stayed(d, d0, plan)
    || Swapped(d, d0, plan, empty)
    || (PutAway(d, d0, plan) && d.marker == Marked(plan))
  }

  /** What holds at every moment of the swap, of the recoveries after it, and between them. */
  ghost predicate Underway<C>(m: Machine<C>, d0: Disk<C>, plan: Plan, empty: C)
    requires Starts(d0, plan)
  {
    var d := m.disk;
    && |d0.contents| <= |d.contents|
    && (d.marker.Marked? ==> d.marker.plan == plan)
    && match m.proc
       case Idle => Pending(d, d0, plan, empty)
       case Recover(next) => if next.None? then Pending(d, d0, plan, empty) else next.value == plan && d == d0
       case RecoverUnlink(next) => next.None? && Pending(d, d0, plan, empty)
       case Mark(p) => p == plan && Stayed(d, d0, plan)
       case MakeBackup(p) => p == plan && Stayed(d, d0, plan) && d.marker.Marked?
       case MoveOut(p) =>
         p == plan && Stayed(d, d0, plan) && d.marker.Marked? && Stash(plan.oldProfile.value) !in d.dirs
       case Clear(p) => p == plan && PutAway(d, d0, plan) && d.marker.Marked?
       case MoveIn(p) => p == plan && PutAway(d, d0, plan) && d.marker.Marked?
       case Unlink(p) => p == plan && Swapped(d, d0, plan, empty)
  }

  /** The restore of a recovery has failed, and the next thing it does is to remove the marker all the same. */
  predicate Forgets<C>(m: Machine<C>) {
    m.proc.RecoverUnlink? && m.disk.marker.Marked? && RestoreIsMissing(m.disk, m.disk.marker.plan)
  }

  lemma StepUnderway<C>(m: Machine<C>, now: nat, d0: Disk<C>, plan: Plan, empty: C)
    requires Starts(d0, plan) && Underway(m, d0, plan, empty) && !Forgets(m)
    ensures Underway(Step(m, now, empty), d0, plan, empty)
  {
  }

  /** The swap goes on, crashes, fails at a file operation, or is being recovered; nobody starts another one. */
  predicate GoesOn<C>(a: Action<C>) { a.Tick? || a.Crash? || a.Heal? || a.Fault? }

  lemma NextUnderway<C>(m: Machine<C>, a: Action<C>, d0: Disk<C>, plan: Plan, empty: C)
    requires Starts(d0, plan) && Underway(m, d0, plan, empty) && GoesOn(a) && !(a.Tick? && Forgets(m))
    ensures Underway(Next(m, a, empty), d0, plan, empty)
  {
    hide Step;
    if a.Tick? {
      StepUnderway(m, a.now, d0, plan, empty);
    }
  }

  /** At some point of the run a recovery whose restore failed removes the marker. */
  predicate ForgottenIn<C>(m: Machine<C>, actions: seq<Action<C>>, empty: C)
    decreases |actions|
  {
    actions != [] && ((actions[0].Tick? && Forgets(m)) || ForgottenIn(Next(m, actions[0], empty), actions[1..], empty))
  }

  /** The third outcome: the old memory is put away, the new one is not put in place, and no marker says so. */
  predicate Lost<C>(m: Machine<C>, d0: Disk<C>, plan: Plan)
    requires Starts(d0, plan)
  {
    && PutAway(m.disk, d0, plan) && Stash(plan.newProfile.value) in m.disk.dirs && m.disk.marker == NoMarker
    && (m.proc == Idle || m.proc == Recover(None))
  }

  lemma ForgettingLoses<C>(m: Machine<C>, now: nat, d0: Disk<C>, plan: Plan, empty: C)
    requires Starts(d0, plan) && Underway(m, d0, plan, empty) && Forgets(m)
    ensures Lost(Next(m, Tick(now), empty), d0, plan)
  {
  }

  lemma LostStays<C>(m: Machine<C>, a: Action<C>, d0: Disk<C>, plan: Plan, empty: C)
    requires Starts(d0, plan) && Lost(m, d0, plan) && GoesOn(a)
    ensures Lost(Next(m, a, empty), d0, plan)
  {
  }

  lemma {:induction false} LostForever<C>(m: Machine<C>, actions: seq<Action<C>>, d0: Disk<C>, plan: Plan, empty: C)
    requires Starts(d0, plan) && Lost(m, d0, plan) && forall i :: 0 <= i < |actions| ==> GoesOn(actions[i])
    ensures Lost(Run(m, actions, empty), d0, plan)
    decreases |actions|
  {
    hide Next, Lost;
    if actions != [] {
      LostStays(m, actions[0], d0, plan, empty);
      LostForever(Next(m, actions[0], empty), actions[1..], d0, plan, empty);
    }
  }

  lemma {:induction false} RunUnderway<C>(m: Machine<C>, actions: seq<Action<C>>, d0: Disk<C>, plan: Plan, empty: C)
    requires Starts(d0, plan) && Underway(m, d0, plan, empty)
    requires forall i :: 0 <= i < |actions| ==> GoesOn(actions[i])
    ensures !ForgottenIn(m, actions, empty) ==> Underway(Run(m, actions, empty), d0, plan, empty)
    ensures ForgottenIn(m, actions, empty) ==> Lost(Run(m, actions, empty), d0, plan)
    decreases |actions|
  {
    hide Next, Underway, Lost, Forgets;
    if actions != [] {
      if actions[0].Tick? && Forgets(m) {
        ForgettingLoses(m, actions[0].now, d0, plan, empty);
        LostForever(Next(m, actions[0], empty), actions[1..], d0, plan, empty);
      } else {
        NextUnderway(m, actions[0], d0, plan, empty);
        RunUnderway(Next(m, actions[0], empty), actions[1..], d0, plan, empty);
      }
    }
  }

  /** `recover_swap`, from beginning to end. */
  function Healed<C>(d: Disk<C>, empty: C): Machine<C> {
    Step(Step(Machine(d, Recover(None)), 0, empty), 0, empty)
  }

  lemma HealEnds<C>(d: Disk<C>, d0: Disk<C>, plan: Plan, empty: C)
    requires Starts(d0, plan) && Underway(Machine(d, Idle), d0, plan, empty)
    ensures var m := Healed(d, empty);
            && m.proc == Idle && m.disk.marker == NoMarker
            && (Stayed(m.disk, d0, plan) || Swapped(m.disk, d0, plan, empty))
  {
  }

  lemma LostIsNeither<C>(d: Disk<C>, d0: Disk<C>, plan: Plan, empty: C)
    requires Starts(d0, plan) && Lost(Machine(d, Idle), d0, plan)
    ensures var m := Healed(d, empty);
            && m == Machine(d, Idle) && !Stayed(d, d0, plan) && !Swapped(d, d0, plan, empty)
  {
  }

  /**
   A crash or a failing file operation at any points of a swap, and of any number of recoveries begun after
   it, followed by one recovery that runs to its end: the old profile's memory is active, or it is in its
   stash and the new profile's is active, and no marker stays behind. There is a third outcome exactly when
   on the way a recovery whose restore failed removed the marker.
   */
  lemma CrashesHeal<C>(d0: Disk<C>, plan: Plan, actions: seq<Action<C>>, torn: bool, empty: C)
    requires Starts(d0, plan) && forall i :: 0 <= i < |actions| ==> GoesOn(actions[i])
    ensures var begun := Next(Machine(d0, Idle), Swap(plan), empty);
            var crashed := Next(Run(begun, actions, empty), Crash(torn), empty);
            var m := Healed(crashed.disk, empty);
            && crashed.proc == Idle && m.proc == Idle && m.disk.marker == NoMarker
            && (Stayed(m.disk, d0, plan) || Swapped(m.disk, d0, plan, empty) <==> !ForgottenIn(begun, actions, empty))
            && (ForgottenIn(begun, actions, empty) ==> Lost(m, d0, plan))
  {
    hide Healed, Underway, Lost, ForgottenIn;
    var begun := Next(Machine(d0, Idle), Swap(plan), empty);
    assert Underway(begun, d0, plan, empty) by { Begins(d0, plan, empty); }
    RunUnderway(begun, actions, d0, plan, empty);
    var last := Run(begun, actions, empty);
    if ForgottenIn(begun, actions, empty) {
      LostStays(last, Crash(torn), d0, plan, empty);
      LostIsNeither(Next(last, Crash(torn), empty).disk, d0, plan, empty);
    } else {
      NextUnderway(last, Crash(torn), d0, plan, empty);
      HealEnds(Next(last, Crash(torn), empty).disk, d0, plan, empty);
    }
  }

  lemma Begins<C>(d0: Disk<C>, plan: Plan, empty: C)
    requires Starts(d0, plan)
    ensures Underway(Machine(d0, Recover(Some(plan))), d0, plan, empty)
  {
  }

  // ----- What the recovery does not save -----

  /** A restore that fails is logged, and the marker goes all the same: the new stash is never moved in. */
  lemma FailedRestoreIsForgotten<C>(d0: Disk<C>, d: Disk<C>, plan: Plan, now: nat, empty: C)
    requires Starts(d0, plan) && PutAway(d, d0, plan) && d.marker == Marked(plan) && Stash(plan.newProfile.value) in d0.dirs
    ensures var m := Run(Machine(d, Idle), [Heal, Fault, Tick(now)], empty);
            && m.proc == Idle && m.disk.marker == NoMarker && PutAway(m.disk, d0, plan)
            && !Stayed(m.disk, d0, plan) && !Swapped(m.disk, d0, plan, empty)
  {
    var m0 := Machine(d, Idle);
    var m1 := Next(m0, Heal, empty);
    var m2 := Next(m1, Fault, empty);
    var m3 := Next(m2, Tick(now), empty);
    RunThree(m0, Heal, Fault, Tick(now), empty);
    assert m1 == Machine(d, Recover(None));
    assert m2 == Machine(d, RecoverUnlink(None));
    assert m3 == Machine(d.(marker := NoMarker), Idle);
    assert PutAway(m3.disk, d0, plan);
  }

  lemma RunThree<C>(m: Machine<C>, a: Action<C>, b: Action<C>, c: Action<C>, empty: C)
    ensures Run(m, [a, b, c], empty) == Next(Next(Next(m, a, empty), b, empty), c, empty)
  {
    hide Next;
    var m1, m2 := Next(m, a, empty), Next(Next(m, a, empty), b, empty);
    assert [a, b, c][1..] == [b, c] && [b, c][1..] == [c] && [c][1..] == [];
    assert Run(m, [a, b, c], empty) == Run(m1, [b, c], empty);
    assert Run(m1, [b, c], empty) == Run(m2, [c], empty);
    assert Run(m2, [c], empty) == Run(Next(m2, c, empty), [], empty);
  }

  // ----- Trying the same swap again -----

  /** One step, with the clock's readings for the two kinds of backup. */
  function Tock<C>(m: Machine<C>, backupAt: nat, unstashAt: nat, empty: C): Machine<C> {
    Step(m, if m.proc.MakeBackup? then backupAt else unstashAt, empty)
  }

  /** The disk that the retry of the swap begins to move directories on, after its recovery. */
  function Recovered<C>(d: Disk<C>, plan: Plan): Disk<C> {
    var d1 := if d.marker.Marked? && RestoreIsMissing(d, d.marker.plan) then Renamed(d, Stash(d.marker.plan.newProfile.value), Active) else d;
    d1.(marker := Marked(plan))
  }

  function BackedUp<C>(d: Disk<C>, plan: Plan, backupAt: nat): Disk<C> {
    if StashIsTaken(d, plan) then Renamed(d, Stash(plan.oldProfile.value), Backup(plan.oldProfile.value, backupAt)) else d
  }

  function Cleared<C>(d: Disk<C>, plan: Plan, unstashAt: nat): Disk<C> {
    if ActiveIsInTheWay(d, plan) then Renamed(d, Active, Unstashed(unstashAt)) else d
  }

  function Retried<C>(d: Disk<C>, plan: Plan, backupAt: nat, unstashAt: nat, empty: C): Disk<C> {
    MovedIn(Cleared(MovedOut(BackedUp(Recovered(d, plan), plan, backupAt), plan), plan, unstashAt), plan, empty).(marker := NoMarker)
  }

  lemma FinishedStep<C>(m: Machine<C>, backupAt: nat, unstashAt: nat, empty: C)
    ensures Finished(m, backupAt, unstashAt, empty)
            == if m.proc.Idle? then m else Finished(Tock(m, backupAt, unstashAt, empty), backupAt, unstashAt, empty)
  {
  }

  lemma MovesEnd<C>(d: Disk<C>, plan: Plan, backupAt: nat, unstashAt: nat, empty: C)
    ensures Finished(Machine(d, MakeBackup(plan)), backupAt, unstashAt, empty)
            == Machine(MovedIn(Cleared(MovedOut(BackedUp(d, plan, backupAt), plan), plan, unstashAt), plan, empty).(marker := NoMarker), Idle)
  {
    hide BackedUp, MovedOut, Cleared, MovedIn, Finished;
    var d1 := BackedUp(d, plan, backupAt);
    var d2 := MovedOut(d1, plan);
    var d3 := Cleared(d2, plan, unstashAt);
    var d4 := MovedIn(d3, plan, empty);
    FinishedStep(Machine(d, MakeBackup(plan)), backupAt, unstashAt, empty);
    assert Tock(Machine(d, MakeBackup(plan)), backupAt, unstashAt, empty) == Machine(d1, MoveOut(plan)) by { BackupStep(d, plan, backupAt, unstashAt, empty); }
    FinishedStep(Machine(d1, MoveOut(plan)), backupAt, unstashAt, empty);
    FinishedStep(Machine(d2, Clear(plan)), backupAt, unstashAt, empty);
    assert Tock(Machine(d2, Clear(plan)), backupAt, unstashAt, empty) == Machine(d3, MoveIn(plan)) by { ClearStep(d2, plan, backupAt, unstashAt, empty); }
    FinishedStep(Machine(d3, MoveIn(plan)), backupAt, unstashAt, empty);
    FinishedStep(Machine(d4, Unlink(plan)), backupAt, unstashAt, empty);
    FinishedStep(Machine(d4.(marker := NoMarker), Idle), backupAt, unstashAt, empty);
  }

  lemma BackupStep<C>(d: Disk<C>, plan: Plan, backupAt: nat, unstashAt: nat, empty: C)
    ensures Tock(Machine(d, MakeBackup(plan)), backupAt, unstashAt, empty) == Machine(BackedUp(d, plan, backupAt), MoveOut(plan))
  {
  }

  lemma ClearStep<C>(d: Disk<C>, plan: Plan, backupAt: nat, unstashAt: nat, empty: C)
    ensures Tock(Machine(d, Clear(plan)), backupAt, unstashAt, empty) == Machine(Cleared(d, plan, unstashAt), MoveIn(plan))
  {
  }

  /** A swap that is not interrupted does its steps one after the other. */
  lemma RetryIs<C>(d: Disk<C>, plan: Plan, backupAt: nat, unstashAt: nat, empty: C)
    ensures Finished(Machine(d, Recover(Some(plan))), backupAt, unstashAt, empty)
            == Machine(Retried(d, plan, backupAt, unstashAt, empty), Idle)
  {
    hide BackedUp, MovedOut, Cleared, MovedIn, Finished;
    var m := Machine(d, Recover(Some(plan)));
    var m1 := Tock(m, backupAt, unstashAt, empty);
    FinishedStep(m, backupAt, unstashAt, empty);
    if !d.marker.NoMarker? {
      FinishedStep(m1, backupAt, unstashAt, empty);
    }
    var d1 := if d.marker.NoMarker? then m1.disk else m1.disk.(marker := NoMarker);
    FinishedStep(Machine(d1, Mark(plan)), backupAt, unstashAt, empty);
    MovesEnd(Recovered(d, plan), plan, backupAt, unstashAt, empty);
  }

  /** Whether the same swap, tried again after a crash, puts the old profile's memory under the old profile's name. */
  predicate RetryFits<C>(d: Disk<C>, d0: Disk<C>, plan: Plan)
    requires Starts(d0, plan)
  {
    Stayed(d, d0, plan) || (Active !in d.dirs && Stash(plan.newProfile.value) !in d0.dirs)
  }

  /**
   The same swap tried again wherever a crash or a failing file operation has left it. The old memory is in
   the old profile's stash in the end exactly when it had not been put away yet, or nothing has taken its
   place and nothing is there to take it. Otherwise what has taken its place, or does so in the recovery,
   goes to the old profile's stash, and the old memory into a backup.
   */
  lemma RetryIsRight<C>(d0: Disk<C>, d: Disk<C>, plan: Plan, backupAt: nat, unstashAt: nat, empty: C)
    requires Starts(d0, plan) && Underway(Machine(d, Idle), d0, plan, empty) && OneNameEach(d)
    requires Backup(plan.oldProfile.value, backupAt) !in d.dirs && Unstashed(unstashAt) !in d.dirs
    ensures var m := Finished(Machine(d, Recover(Some(plan))), backupAt, unstashAt, empty);
            && m.proc == Idle && m.disk.marker == NoMarker
            && (StandsAt(m.disk.dirs, Stash(plan.oldProfile.value), d0.dirs[Active]) <==> RetryFits(d, d0, plan))
            && (!RetryFits(d, d0, plan) ==> StandsAt(m.disk.dirs, Backup(plan.oldProfile.value, backupAt), d0.dirs[Active]))
  {
    RetryIs(d, plan, backupAt, unstashAt, empty);
    hide Finished;
    if Stayed(d, d0, plan) {
      RetryOfStayed(d0, d, plan, backupAt, unstashAt, empty);
    } else if Active in d.dirs {
      RetryOfSwapped(d0, d, plan, backupAt, unstashAt, empty);
    } else {
      RetryOfPutAway(d0, d, plan, backupAt, unstashAt, empty);
    }
  }

  lemma RetryOfStayed<C>(d0: Disk<C>, d: Disk<C>, plan: Plan, backupAt: nat, unstashAt: nat, empty: C)
    requires Starts(d0, plan) && Stayed(d, d0, plan)
    ensures StandsAt(Retried(d, plan, backupAt, unstashAt, empty).dirs, Stash(plan.oldProfile.value), d0.dirs[Active])
  {
    assert Recovered(d, plan).dirs == d.dirs;
    var d1 := BackedUp(Recovered(d, plan), plan, backupAt);
    assert StandsAt(d1.dirs, Active, d0.dirs[Active]);
    var d2 := MovedOut(d1, plan);
    assert StandsAt(d2.dirs, Stash(plan.oldProfile.value), d0.dirs[Active]) && Active !in d2.dirs;
  }

  lemma RetryOfSwapped<C>(d0: Disk<C>, d: Disk<C>, plan: Plan, backupAt: nat, unstashAt: nat, empty: C)
    requires Starts(d0, plan) && Active in d.dirs && OneNameEach(d)
    requires StandsAt(d.dirs, Stash(plan.oldProfile.value), d0.dirs[Active]) && Backup(plan.oldProfile.value, backupAt) !in d.dirs
    ensures var u := Retried(d, plan, backupAt, unstashAt, empty);
            && StandsAt(u.dirs, Stash(plan.oldProfile.value), d.dirs[Active]) && d.dirs[Active] != d0.dirs[Active]
            && StandsAt(u.dirs, Backup(plan.oldProfile.value, backupAt), d0.dirs[Active])
  {
    assert Recovered(d, plan).dirs == d.dirs;
    var d1 := BackedUp(Recovered(d, plan), plan, backupAt);
    assert StandsAt(d1.dirs, Active, d.dirs[Active]) && StandsAt(d1.dirs, Backup(plan.oldProfile.value, backupAt), d0.dirs[Active]);
    var d2 := MovedOut(d1, plan);
    assert StandsAt(d2.dirs, Stash(plan.oldProfile.value), d.dirs[Active]) && Active !in d2.dirs;
  }

  lemma RetryOfPutAway<C>(d0: Disk<C>, d: Disk<C>, plan: Plan, backupAt: nat, unstashAt: nat, empty: C)
    requires Starts(d0, plan) && Active !in d.dirs && Underway(Machine(d, Idle), d0, plan, empty) && OneNameEach(d)
    requires Backup(plan.oldProfile.value, backupAt) !in d.dirs
    ensures var u, mine, theirs := Retried(d, plan, backupAt, unstashAt, empty), Stash(plan.oldProfile.value), Stash(plan.newProfile.value);
            if theirs in d0.dirs
            then StandsAt(u.dirs, mine, d0.dirs[theirs]) && d0.dirs[theirs] != d0.dirs[Active]
                 && StandsAt(u.dirs, Backup(plan.oldProfile.value, backupAt), d0.dirs[Active])
            else StandsAt(u.dirs, mine, d0.dirs[Active])
  {
    var theirs := Stash(plan.newProfile.value);
    if theirs in d0.dirs {
      assert PutAway(d, d0, plan) && d.marker == Marked(plan);
      var d1 := Recovered(d, plan);
      assert d1.dirs == (d.dirs - {theirs})[Active := d0.dirs[theirs]];
      var d2 := BackedUp(d1, plan, backupAt);
      assert StandsAt(d2.dirs, Active, d0.dirs[theirs]) && StandsAt(d2.dirs, Backup(plan.oldProfile.value, backupAt), d0.dirs[Active]);
      var d3 := MovedOut(d2, plan);
      assert StandsAt(d3.dirs, Stash(plan.oldProfile.value), d0.dirs[theirs]) && Active !in d3.dirs;
    } else {
      assert Recovered(d, plan).dirs == d.dirs;
    }
  }

  /** Past the stash, with a stash of the new profile there: the new memory goes under the old name, and a fresh directory is active. */
  lemma RetryMisplaces<C>(d0: Disk<C>, d: Disk<C>, plan: Plan, backupAt: nat, unstashAt: nat, empty: C)
    requires Starts(d0, plan) && PutAway(d, d0, plan) && d.marker == Marked(plan) && Stash(plan.newProfile.value) in d0.dirs
    requires Backup(plan.oldProfile.value, backupAt) !in d.dirs
    ensures var d1 := Finished(Machine(d, Recover(Some(plan))), backupAt, unstashAt, empty).disk;
            && StandsAt(d1.dirs, Stash(plan.oldProfile.value), d0.dirs[Stash(plan.newProfile.value)])
            && StandsAt(d1.dirs, Backup(plan.oldProfile.value, backupAt), d0.dirs[Active])
            && StandsAt(d1.dirs, Active, |d.contents|)
  {
    RetryIs(d, plan, backupAt, unstashAt, empty);
    hide Finished;
    var theirs := Stash(plan.newProfile.value);
    var d1 := Recovered(d, plan);
    assert d1.dirs == (d.dirs - {theirs})[Active := d0.dirs[theirs]];
    var d2 := BackedUp(d1, plan, backupAt);
    assert StandsAt(d2.dirs, Active, d0.dirs[theirs]) && StandsAt(d2.dirs, Backup(plan.oldProfile.value, backupAt), d0.dirs[Active]);
    var d3 := MovedOut(d2, plan);
    assert StandsAt(d3.dirs, Stash(plan.oldProfile.value), d0.dirs[theirs]) && Active !in d3.dirs && theirs !in d3.dirs;
  }

  // ----- A run that gets there -----

  const SWAP := Plan(Some("a"), Some("b"))

  /** Profile a's memory is active, and b has a stash. */
  function Two<C>(x: C, y: C): Disk<C> { Disk(map[Active := 0, Stash("b") := 1], [x, y], NoMarker) }

  function Halfway<C>(x: C, y: C): Disk<C> { Disk(map[Stash("a") := 0, Stash("b") := 1], [x, y], Marked(SWAP)) }

  lemma FourTicks<C>(x: C, y: C, empty: C)
    ensures var m := Next(Machine(Two(x, y), Idle), Swap(SWAP), empty);
            Run(m, [Tick(0), Tick(0), Tick(0), Tick(0)], empty) == Machine(Halfway(x, y), Clear(SWAP))
  {
    var m0 := Next(Machine(Two(x, y), Idle), Swap(SWAP), empty);
    var m1 := Next(m0, Tick(0), empty);
    var m2 := Next(m1, Tick(0), empty);
    var m3 := Next(m2, Tick(0), empty);
    var m4 := Next(m3, Tick(0), empty);
    assert m1 == Machine(Two(x, y), Mark(SWAP));
    assert m2 == Machine(Two(x, y).(marker := Marked(SWAP)), MakeBackup(SWAP));
    assert m3 == Machine(Two(x, y).(marker := Marked(SWAP)), MoveOut(SWAP));
    assert m4.disk.dirs == Halfway(x, y).dirs;
    assert m4 == Machine(Halfway(x, y), Clear(SWAP));
    RunThree(m1, Tick(0), Tick(0), Tick(0), empty);
    var ticks: seq<Action<C>> := [Tick(0), Tick(0), Tick(0), Tick(0)];
    assert ticks[1..] == [Tick(0), Tick(0), Tick(0)];
  }

  /** A swap from a to b, a crash between its two renames, and the same swap again: a's stash holds b's memory. */
  lemma RetryGoesWrong<C>(x: C, y: C, empty: C, now: nat)
    ensures var d0 := Two(x, y);
            var crashed := Next(Run(Next(Machine(d0, Idle), Swap(SWAP), empty), [Tick(0), Tick(0), Tick(0), Tick(0)], empty), Crash(false), empty);
            var d := crashed.disk;
            && Starts(d0, SWAP) && crashed.proc == Idle && Underway(crashed, d0, SWAP, empty) && OneNameEach(d)
            && !RetryFits(d, d0, SWAP)
            && StandsAt(Finished(Machine(d, Recover(Some(SWAP))), now, now, empty).disk.dirs, Stash("a"), 1)
  {
    hide Run, Finished;
    FourTicks(x, y, empty);
    var d0, d := Two(x, y), Halfway(x, y);
    assert PutAway(d, d0, SWAP);
    assert StandsAt(d.dirs, Stash("a"), 0) && StandsAt(d.dirs, Stash("b"), 1);
    assert IsNamed(d.dirs, 0) && IsNamed(d.dirs, 1);
    RetryMisplaces(d0, d, SWAP, now, now, empty);
  }
}
