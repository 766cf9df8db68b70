/**
 Swapping the memory directory between profiles, with a marker written ahead, as a machine that may
 stop between any two of its steps.

 Every directory has an identity, its position in `contents`; `dirs` says under which name each one
 stands.
 */
module MemorySwap {
  import opened Options

  /** The names in a project directory. */
  datatype Name =
    | Active                              // memory
    | Stash(profile: string)              // memory--profile
    | Backup(profile: string, time: nat)  // memory--profile.bak.time
    | Unstashed(time: nat)                // memory--_unstashed.time

  datatype Plan = Plan(oldProfile: Option<string>, newProfile: Option<string>)
  datatype Marker = NoMarker | Marked(plan: Plan) | Corrupt

  datatype Disk<!C> = Disk(dirs: map<Name, nat>, contents: seq<C>, marker: Marker)

  /** `if profile:` */
  predicate Named(p: Option<string>) { p.Some? && p.value != "" }

  /** A rename onto a free name. */
  function Move(dirs: map<Name, nat>, src: Name, dst: Name): map<Name, nat>
    requires src in dirs
  {
    (dirs - {src})[dst := dirs[src]]
  }

  // ----- One step at a time -----

  /** Where the process stands; a swap begins with a recovery. */
  datatype Proc =
    | Idle
    | Recover(next: Option<Plan>)
    | RecoverUnlink(next: Option<Plan>)
    | Mark(plan: Plan)
    | MakeBackup(plan: Plan)
    | MoveOut(plan: Plan)
    | Clear(plan: Plan)
    | MoveIn(plan: Plan)
    | Unlink(plan: Plan)

  datatype Machine<!C> = Machine(disk: Disk<C>, proc: Proc)

  function Then(next: Option<Plan>): Proc { match next case None => Idle case Some(plan) => Mark(plan) }

  predicate RestoreIsMissing<C>(d: Disk<C>, plan: Plan) {
    Named(plan.newProfile) && Stash(plan.newProfile.value) in d.dirs && Active !in d.dirs
  }

  predicate StashIsTaken<C>(d: Disk<C>, plan: Plan) {
    Named(plan.oldProfile) && Active in d.dirs && Stash(plan.oldProfile.value) in d.dirs
  }

  predicate ActiveIsInTheWay<C>(d: Disk<C>, plan: Plan) {
    Named(plan.newProfile) && Stash(plan.newProfile.value) in d.dirs && Active in d.dirs
  }

  function Renamed<C>(d: Disk<C>, src: Name, dst: Name): Disk<C>
    requires src in d.dirs
  {
    d.(dirs := Move(d.dirs, src, dst))
  }

  function MovedOut<C>(d: Disk<C>, plan: Plan): Disk<C> {
    if Named(plan.oldProfile) && Active in d.dirs then Renamed(d, Active, Stash(plan.oldProfile.value)) else d
  }

  function MovedIn<C>(d: Disk<C>, plan: Plan, empty: C): Disk<C> {
    if Named(plan.newProfile) && Stash(plan.newProfile.value) in d.dirs then Renamed(d, Stash(plan.newProfile.value), Active)
    else if Named(plan.newProfile) && Active !in d.dirs then
      d.(dirs := d.dirs[Active := |d.contents|], contents := d.contents + [empty])
    else d
  }

  function Step<C>(m: Machine<C>, now: nat, empty: C): Machine<C> {
    var d := m.disk;
    match m.proc
    case Idle => m
    case Recover(next) =>
      (match d.marker
       case NoMarker => Machine(d, Then(next))
       case Corrupt => Machine(d, RecoverUnlink(next))
       case Marked(plan) =>
         Machine(if RestoreIsMissing(d, plan) then Renamed(d, Stash(plan.newProfile.value), Active) else d, RecoverUnlink(next)))
    case RecoverUnlink(next) => Machine(d.(marker := NoMarker), Then(next))
    case Mark(plan) => Machine(d.(marker := Marked(plan)), MakeBackup(plan))
    case MakeBackup(plan) =>
      Machine(if StashIsTaken(d, plan) then Renamed(d, Stash(plan.oldProfile.value), Backup(plan.oldProfile.value, now)) else d, MoveOut(plan))
    case MoveOut(plan) => Machine(MovedOut(d, plan), Clear(plan))
    case Clear(plan) => Machine(if ActiveIsInTheWay(d, plan) then Renamed(d, Active, Unstashed(now)) else d, MoveIn(plan))
    case MoveIn(plan) => Machine(MovedIn(d, plan, empty), Unlink(plan))
    case Unlink(plan) => Machine(d.(marker := NoMarker), Idle)
  }

  /** How many steps are left, at most. */
  function Left(proc: Proc): nat {
    match proc
    case Idle => 0
    case Unlink(_) => 1
    case MoveIn(_) => 2
    case Clear(_) => 3
    case MoveOut(_) => 4
    case MakeBackup(_) => 5
    case Mark(_) => 6
    case RecoverUnlink(_) => 7
    case Recover(_) => 8
  }

  lemma StepsEnd<C>(m: Machine<C>, now: nat, empty: C)
    requires !m.proc.Idle?
    ensures Left(Step(m, now, empty).proc) < Left(m.proc)
  {
  }

  /** Left alone, the process runs to its end. The clock is read once for each kind of backup. */
  function Finished<C>(m: Machine<C>, backupAt: nat, unstashAt: nat, empty: C): Machine<C>
    decreases Left(m.proc)
  {
    if m.proc.Idle? then m
    else
      var now := if m.proc.MakeBackup? then backupAt else unstashAt;
      StepsEnd(m, now, empty);
      Finished(Step(m, now, empty), backupAt, unstashAt, empty)
  }

  /** The time stamp of a backup is not taken. */
  predicate FreshAt<C>(m: Machine<C>, now: nat) {
    match m.proc
    case MakeBackup(plan) => Named(plan.oldProfile) ==> Backup(plan.oldProfile.value, now) !in m.disk.dirs
    case Clear(_) => Unstashed(now) !in m.disk.dirs
    case _ => true
  }

  // ----- Runs -----

  datatype Action<C> =
    | Swap(plan: Plan)
    | Heal
    | Tick(now: nat)
    | Crash(torn: bool)     // torn: in the middle of writing the marker
    | Fault                 // a file operation raises
    | Edit(content: C)      // someone writes into the active memory

  function Next<C>(m: Machine<C>, a: Action<C>, empty: C): Machine<C> {
    match a
    case Swap(plan) => if m.proc.Idle? then Machine(m.disk, Recover(Some(plan))) else m
    case Heal => if m.proc.Idle? then Machine(m.disk, Recover(None)) else m
    case Tick(now) => if FreshAt(m, now) then Step(m, now, empty) else m
    case Crash(torn) => Machine(if torn && m.proc.Mark? then m.disk.(marker := Corrupt) else m.disk, Idle)
    case Fault =>
      // A failed restore is logged and recovery goes on; everywhere else the exception ends the process.
      if m.proc.Recover? && m.disk.marker.Marked? then Machine(m.disk, RecoverUnlink(m.proc.next)) else Machine(m.disk, Idle)
    case Edit(c) =>
      if Active in m.disk.dirs && m.disk.dirs[Active] < |m.disk.contents| then
        m.(disk := m.disk.(contents := m.disk.contents[m.disk.dirs[Active] := c]))
      else m
  }

  function Run<C>(m: Machine<C>, actions: seq<Action<C>>, empty: C): Machine<C>
    decreases |actions|
  {
    if actions == [] then m else Run(Next(m, actions[0], empty), actions[1..], empty)
  }

  // ----- Nothing is lost -----

  predicate StandsAt(dirs: map<Name, nat>, name: Name, id: nat) { name in dirs && dirs[name] == id }

  ghost predicate IsNamed(dirs: map<Name, nat>, id: nat) { exists name :: StandsAt(dirs, name, id) }

  /** Every directory stands under exactly one name. */
  ghost predicate OneNameEach<C>(d: Disk<C>) {
    && (forall name :: name in d.dirs ==> d.dirs[name] < |d.contents|)
    && (forall a, b :: a in d.dirs && b in d.dirs && a != b ==> d.dirs[a] != d.dirs[b])
    && (forall id :: 0 <= id < |d.contents| ==> IsNamed(d.dirs, id))
  }

  lemma MoveKeeps<C>(d: Disk<C>, src: Name, dst: Name)
    requires OneNameEach(d) && src in d.dirs && dst !in d.dirs
    ensures OneNameEach(Renamed(d, src, dst))
  {
    var d' := Renamed(d, src, dst);
    forall id | 0 <= id < |d.contents|
      ensures IsNamed(d'.dirs, id)
    {
      assert IsNamed(d.dirs, id);
      var name :| StandsAt(d.dirs, name, id);
      assert StandsAt(d'.dirs, if name == src then dst else name, id);
    }
  }

  lemma NewDirKeeps<C>(d: Disk<C>, empty: C)
    requires OneNameEach(d) && Active !in d.dirs
    ensures OneNameEach(d.(dirs := d.dirs[Active := |d.contents|], contents := d.contents + [empty]))
  {
    var d' := d.(dirs := d.dirs[Active := |d.contents|], contents := d.contents + [empty]);
    forall id | 0 <= id < |d'.contents|
      ensures IsNamed(d'.dirs, id)
    {
      if id == |d.contents| {
        assert StandsAt(d'.dirs, Active, id);
      } else {
        assert IsNamed(d.dirs, id);
        var name :| StandsAt(d.dirs, name, id);
        assert StandsAt(d'.dirs, name, id);
      }
    }
  }

  /** A restored stash is moved onto a free name. */
  predicate RoomToMoveIn<C>(m: Machine<C>) {
    m.proc.MoveIn? ==> !ActiveIsInTheWay(m.disk, m.proc.plan)
  }

  predicate RoomToMoveOut<C>(m: Machine<C>) {
    m.proc.MoveOut? ==> !StashIsTaken(m.disk, m.proc.plan)
  }

  ghost predicate Sound<C>(m: Machine<C>) { OneNameEach(m.disk) && RoomToMoveIn(m) && RoomToMoveOut(m) }

  lemma StepKeeps<C>(m: Machine<C>, now: nat, empty: C)
    requires Sound(m) && FreshAt(m, now)
    ensures Sound(Step(m, now, empty)) && m.disk.contents <= Step(m, now, empty).disk.contents
  {
    hide OneNameEach;
    var d := m.disk;
    match m.proc {
      case Recover(_) =>
        if d.marker.Marked? && RestoreIsMissing(d, d.marker.plan) {
          MoveKeeps(d, Stash(d.marker.plan.newProfile.value), Active);
        }
        MarkerIsFree(d, NoMarker);
      case RecoverUnlink(_) => MarkerIsFree(d, NoMarker);
      case Mark(plan) => MarkerIsFree(d, Marked(plan));
      case MakeBackup(plan) =>
        if StashIsTaken(d, plan) {
          MoveKeeps(d, Stash(plan.oldProfile.value), Backup(plan.oldProfile.value, now));
        }
      case MoveOut(plan) =>
        if Named(plan.oldProfile) && Active in d.dirs {
          MoveKeeps(d, Active, Stash(plan.oldProfile.value));
        }
      case Clear(plan) =>
        if ActiveIsInTheWay(d, plan) {
          MoveKeeps(d, Active, Unstashed(now));
        }
      case MoveIn(plan) =>
        if Named(plan.newProfile) && Stash(plan.newProfile.value) in d.dirs {
          MoveKeeps(d, Stash(plan.newProfile.value), Active);
        } else if Named(plan.newProfile) && Active !in d.dirs {
          NewDirKeeps(d, empty);
        }
      case Unlink(_) => MarkerIsFree(d, NoMarker);
      case Idle =>
    }
  }

  lemma MarkerIsFree<C>(d: Disk<C>, marker: Marker)
    ensures OneNameEach(d.(marker := marker)) <==> OneNameEach(d)
  {
  }

  lemma EditKeeps<C>(d: Disk<C>, id: nat, c: C)
    requires OneNameEach(d) && id < |d.contents|
    ensures OneNameEach(d.(contents := d.contents[id := c]))
  {
  }

  lemma NextKeeps<C>(m: Machine<C>, a: Action<C>, empty: C)
    requires Sound(m)
    ensures Sound(Next(m, a, empty))
    ensures !a.Edit? ==> m.disk.contents <= Next(m, a, empty).disk.contents
  {
    hide OneNameEach, Step;
    match a {
      case Tick(now) =>
        if FreshAt(m, now) {
          StepKeeps(m, now, empty);
        }
      case Crash(_) => MarkerIsFree(m.disk, Corrupt);
      case Edit(c) =>
        if Active in m.disk.dirs && m.disk.dirs[Active] < |m.disk.contents| {
          EditKeeps(m.disk, m.disk.dirs[Active], c);
        }
      case _ =>
    }
  }

  /** What is written into one directory during a run: only edits while it is the active one. */
  function Written<C>(m: Machine<C>, actions: seq<Action<C>>, empty: C, id: nat, before: C): C
    decreases |actions|
  {
    if actions == [] then before
    else
      var now := if actions[0].Edit? && StandsAt(m.disk.dirs, Active, id) then actions[0].content else before;
      Written(Next(m, actions[0], empty), actions[1..], empty, id, now)
  }

  /**
   Over every interleaving of swaps, recoveries, crashes, failing file operations and edits, every
   directory there ever was stands under exactly one name, and holds what was last written into it.
   */
  lemma {:induction false} NothingIsLost<C>(m: Machine<C>, actions: seq<Action<C>>, empty: C, id: nat)
    requires Sound(m) && id < |m.disk.contents|
    ensures var d := Run(m, actions, empty).disk;
            && OneNameEach(d)
            && id < |d.contents| && d.contents[id] == Written(m, actions, empty, id, m.disk.contents[id])
            && IsNamed(d.dirs, id)
    decreases |actions|
  {
    hide OneNameEach, Next;
    if actions == [] {
      HasName(m.disk, id);
    } else {
      NextKeeps(m, actions[0], empty);
      var m1 := Next(m, actions[0], empty);
      EditsOnly(m, actions[0], empty, id);
      NothingIsLost(m1, actions[1..], empty, id);
    }
  }

  lemma HasName<C>(d: Disk<C>, id: nat)
    requires OneNameEach(d) && id < |d.contents|
    ensures IsNamed(d.dirs, id)
  {
  }

  lemma EditsOnly<C>(m: Machine<C>, a: Action<C>, empty: C, id: nat)
    requires Sound(m) && id < |m.disk.contents|
    ensures id < |Next(m, a, empty).disk.contents|
    ensures Next(m, a, empty).disk.contents[id]
            == if a.Edit? && StandsAt(m.disk.dirs, Active, id) then a.content else m.disk.contents[id]
  {
    NextKeeps(m, a, empty);
  }
}
