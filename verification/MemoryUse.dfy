/** Memory swaps as they are called: what a profile finds when it becomes active again, and the calls themselves. */
module MemoryUse {
  import opened Options
  import opened MemorySwap

  // ----- What the user sees -----

  /** Every profile's memory, and which profile is active. */
  datatype Memories<!C> = Memories(active: Option<string>, saved: map<string, C>)

  datatype Use<C> = Write(content: C) | Switch(to: Option<string>, at: nat)

  function Used<C>(v: Memories<C>, u: Use<C>, empty: C): Memories<C> {
    match u
    case Write(c) => if v.active.Some? then v.(saved := v.saved[v.active.value := c]) else v
    case Switch(to, _) =>
      Memories(to, if to.Some? && to.value !in v.saved then v.saved[to.value := empty] else v.saved)
  }

  function AllUsed<C>(v: Memories<C>, uses: seq<Use<C>>, empty: C): Memories<C> {
    if uses == [] then v else Used(AllUsed(v, uses[..|uses| - 1], empty), uses[|uses| - 1], empty)
  }

  // ----- What the disk does -----

  /** A whole swap from the active profile. */
  function Switched<C>(d: Disk<C>, plan: Plan, at: nat, empty: C): Disk<C> {
    Finished(Machine(d, Recover(Some(plan))), at, at, empty).disk
  }

  function OnDisk<C>(d: Disk<C>, active: Option<string>, u: Use<C>, empty: C): Disk<C> {
    match u
    case Write(c) => Next(Machine(d, Idle), Edit(c), empty).disk
    case Switch(to, at) => Switched(d, Plan(active, to), at, empty)
  }

  function AllOnDisk<C>(d: Disk<C>, v: Memories<C>, uses: seq<Use<C>>, empty: C): Disk<C> {
    if uses == [] then d
    else
      var before := uses[..|uses| - 1];
      OnDisk(AllOnDisk(d, v, before, empty), AllUsed(v, before, empty).active, uses[|uses| - 1], empty)
  }

  // ----- The disk shows what the user sees -----

  predicate Holds<C(==)>(d: Disk<C>, name: Name, c: C) {
    name in d.dirs && d.dirs[name] < |d.contents| && d.contents[d.dirs[name]] == c
  }

  /** No backup was made at or after `clock`. */
  predicate Before(d: map<Name, nat>, clock: nat) {
    forall name :: name in d && (name.Backup? || name.Unstashed?) ==> name.time < clock
  }

  ghost predicate Shows<C>(d: Disk<C>, v: Memories<C>) {
    && d.marker == NoMarker && OneNameEach(d)
    && "" !in v.saved
    && (v.active.None? ==> Active !in d.dirs)
    && (v.active.Some? ==> v.active.value in v.saved && Holds(d, Active, v.saved[v.active.value]))
    && (forall p :: p != "" && Some(p) != v.active ==>
          && (p in v.saved <==> Stash(p) in d.dirs)
          && (p in v.saved ==> Holds(d, Stash(p), v.saved[p])))
  }

  predicate Proper<C>(u: Use<C>, clock: nat) { u.Switch? ==> u.at >= clock && (u.to.Some? ==> u.to.value != "") }

  function Clock<C>(u: Use<C>, clock: nat): nat { if u.Switch? then u.at + 1 else clock }

  /** A whole swap, without its steps. */
  function SwapOf<C>(d: Disk<C>, plan: Plan, at: nat, empty: C): Disk<C> {
    var d1 := if StashIsTaken(d, plan) then Renamed(d, Stash(plan.oldProfile.value), Backup(plan.oldProfile.value, at)) else d;
    var d2 := MovedOut(d1, plan);
    var d3 := if ActiveIsInTheWay(d2, plan) then Renamed(d2, Active, Unstashed(at)) else d2;
    MovedIn(d3, plan, empty)
  }

  lemma StepIs<C>(m: Machine<C>, at: nat, empty: C)
    ensures Finished(m, at, at, empty) == if m.proc.Idle? then m else Finished(Step(m, at, empty), at, at, empty)
  {
  }

  lemma MarkerAside<C>(d: Disk<C>, plan: Plan, at: nat, empty: C, marker: Marker)
    ensures SwapOf(d.(marker := marker), plan, at, empty) == SwapOf(d, plan, at, empty).(marker := marker)
  {
  }

  /** Without a pending swap, the steps come to a whole swap. */
  lemma SwitchedIs<C>(d: Disk<C>, plan: Plan, at: nat, empty: C)
    requires d.marker == NoMarker
    ensures Switched(d, plan, at, empty) == SwapOf(d, plan, at, empty)
  {
    hide MovedOut, MovedIn, StashIsTaken, ActiveIsInTheWay, Renamed, Finished;
    var m0 := Machine(d, Recover(Some(plan)));
    var m1 := Step(m0, at, empty);
    var m2 := Step(m1, at, empty);
    var m3 := Step(m2, at, empty);
    var m4 := Step(m3, at, empty);
    var m5 := Step(m4, at, empty);
    var m6 := Step(m5, at, empty);
    var m7 := Step(m6, at, empty);
    StepIs(m0, at, empty);
    StepIs(m1, at, empty);
    StepIs(m2, at, empty);
    StepIs(m3, at, empty);
    StepIs(m4, at, empty);
    StepIs(m5, at, empty);
    StepIs(m6, at, empty);
    StepIs(m7, at, empty);
    MarkerAside(d, plan, at, empty, Marked(plan));
    SwapKeepsMarker(d, plan, at, empty);
  }

  lemma SwapKeepsMarker<C>(d: Disk<C>, plan: Plan, at: nat, empty: C)
    ensures SwapOf(d, plan, at, empty).marker == d.marker
  {
  }

  lemma WriteShows<C>(d: Disk<C>, v: Memories<C>, c: C, empty: C)
    requires Shows(d, v)
    ensures Shows(OnDisk(d, v.active, Write(c), empty), Used(v, Write(c), empty))
    ensures OnDisk(d, v.active, Write(c), empty).dirs == d.dirs
  {
    if Active in d.dirs {
      EditKeeps(d, d.dirs[Active], c);
    }
  }

  /** The active memory is put away under its profile's name. */
  lemma OutShows<C>(d: Disk<C>, v: Memories<C>, to: Option<string>, at: nat)
    requires Shows(d, v) && Before(d.dirs, at) && v.active.Some?
    ensures var plan := Plan(v.active, to);
            var d1 := if StashIsTaken(d, plan) then Renamed(d, Stash(plan.oldProfile.value), Backup(plan.oldProfile.value, at)) else d;
            Shows(MovedOut(d1, plan), v.(active := None)) && Before(MovedOut(d1, plan).dirs, at + 1)
  {
    hide OneNameEach;
    var plan := Plan(v.active, to);
    var p := v.active.value;
    var d1 := d;
    if StashIsTaken(d, plan) {
      d1 := Renamed(d, Stash(p), Backup(p, at));
      MoveKeeps(d, Stash(p), Backup(p, at));
    }
    MoveKeeps(d1, Active, Stash(p));
  }

  /** The stash of a profile is moved in, or a new directory is made. */
  lemma InShows<C>(d: Disk<C>, v: Memories<C>, plan: Plan, at: nat, empty: C)
    requires Shows(d, v) && v.active.None? && Before(d.dirs, at + 1) && (plan.newProfile.Some? ==> plan.newProfile.value != "")
    ensures !ActiveIsInTheWay(d, plan)
    ensures Shows(MovedIn(d, plan, empty), Used(v, Switch(plan.newProfile, at), empty))
    ensures Before(MovedIn(d, plan, empty).dirs, at + 1)
  {
    hide OneNameEach;
    if plan.newProfile.Some? {
      var q := plan.newProfile.value;
      if Stash(q) in d.dirs {
        MoveKeeps(d, Stash(q), Active);
      } else {
        NewDirKeeps(d, empty);
      }
    }
  }

  lemma SwitchShows<C>(d: Disk<C>, v: Memories<C>, to: Option<string>, at: nat, empty: C)
    requires Shows(d, v) && Before(d.dirs, at) && (to.Some? ==> to.value != "")
    ensures Shows(Switched(d, Plan(v.active, to), at, empty), Used(v, Switch(to, at), empty))
    ensures Before(Switched(d, Plan(v.active, to), at, empty).dirs, at + 1)
  {
    hide OneNameEach, Switched;
    var plan := Plan(v.active, to);
    SwitchedIs(d, plan, at, empty);
    if v.active.None? {
      InShows(d, v, plan, at, empty);
    } else {
      OutShows(d, v, to, at);
      var d1 := if StashIsTaken(d, plan) then Renamed(d, Stash(plan.oldProfile.value), Backup(plan.oldProfile.value, at)) else d;
      InShows(MovedOut(d1, plan), v.(active := None), plan, at, empty);
    }
  }

  /** A sequence of uses whose swaps happen in different seconds. */
  predicate InOrder<C>(uses: seq<Use<C>>, clock: nat) {
    forall i :: 0 <= i < |uses| ==> Proper(uses[i], ClockAt(uses[..i], clock))
  }

  function ClockAt<C>(uses: seq<Use<C>>, clock: nat): nat {
    if uses == [] then clock else Clock(uses[|uses| - 1], ClockAt(uses[..|uses| - 1], clock))
  }

  /**
   Over every run of edits and completed swaps that leave the active profile, the disk shows every
   profile's memory: activating a profile yields exactly what it held when it was last active, and an
   empty directory the first time.
   */
  lemma {:induction false} ProfilesRemember<C>(d: Disk<C>, v: Memories<C>, uses: seq<Use<C>>, clock: nat, empty: C)
    requires Shows(d, v) && Before(d.dirs, clock) && InOrder(uses, clock)
    ensures Shows(AllOnDisk(d, v, uses, empty), AllUsed(v, uses, empty))
    ensures Before(AllOnDisk(d, v, uses, empty).dirs, ClockAt(uses, clock))
    decreases |uses|
  {
    hide Shows, Used, OnDisk, Before;
    if uses != [] {
      var n := |uses| - 1;
      var before, u := uses[..n], uses[n];
      forall i | 0 <= i < n
        ensures Proper(before[i], ClockAt(before[..i], clock))
      {
        assert before[..i] == uses[..i];
      }
      ProfilesRemember(d, v, before, clock, empty);
      UseShows(AllOnDisk(d, v, before, empty), AllUsed(v, before, empty), u, ClockAt(before, clock), empty);
    }
  }

  lemma UseShows<C>(d: Disk<C>, v: Memories<C>, u: Use<C>, clock: nat, empty: C)
    requires Shows(d, v) && Before(d.dirs, clock) && Proper(u, clock)
    ensures Shows(OnDisk(d, v.active, u, empty), Used(v, u, empty))
    ensures Before(OnDisk(d, v.active, u, empty).dirs, Clock(u, clock))
  {
    hide Shows;
    match u {
      case Write(c) => WriteShows(d, v, c, empty);
      case Switch(to, at) => SwitchShows(d, v, to, at, empty);
    }
  }

  /** Leaving a profile and coming back finds its memory as it was left, whatever others did meanwhile. */
  lemma {:induction false} OthersDoNotMatter<C>(v: Memories<C>, uses: seq<Use<C>>, p: string, empty: C)
    requires p in v.saved && v.active != Some(p)
    requires forall i :: 0 <= i < |uses| ==> !(uses[i].Switch? && uses[i].to == Some(p))
    ensures var w := AllUsed(v, uses, empty);
            w.active != Some(p) && p in w.saved && w.saved[p] == v.saved[p]
  {
    if uses != [] {
      OthersDoNotMatter(v, uses[..|uses| - 1], p, empty);
    }
  }

  // ----- The calls -----

  datatype SwapResult = SwapResult(stashed: Option<string>, restored: Option<string>, recovered: bool, created: bool)

  class Project<C> {
    var dirs: map<Name, nat>
    var contents: seq<C>
    var marker: Marker

    ghost function OnDisk(): Disk<C>
      reads this
    {
      Disk(dirs, contents, marker)
    }

    method Rename(src: Name, dst: Name)
      requires src in dirs
      modifies this`dirs
      ensures OnDisk() == Renamed(old(OnDisk()), src, dst)
    {
      dirs := (dirs - {src})[dst := dirs[src]];
    }

    /** `recover_swap`, when no file operation fails. */
    method RecoverSwap(ghost empty: C) returns (recovered: bool)
      modifies this
      ensures Machine(OnDisk(), Idle) == Finished(Machine(old(OnDisk()), Recover(None)), 0, 0, empty)
      ensures marker == NoMarker && contents == old(contents) && recovered == old(marker != NoMarker)
      ensures old(marker) == NoMarker ==> OnDisk() == old(OnDisk())
    {
      hide Renamed;
      ghost var m := Machine(OnDisk(), Recover(None));
      RecoverIs(m, empty);
      if marker == NoMarker {
        return false;
      }
      if marker == Corrupt {
        marker := NoMarker;
        return true;
      }
      var plan := marker.plan;
      var newProfile := plan.newProfile;
      if newProfile.Some? && newProfile.value != "" {
        if Stash(newProfile.value) in dirs && Active !in dirs {
          Rename(Stash(newProfile.value), Active);
        }
      }
      marker := NoMarker;
      recovered := true;
    }

    /** The swap itself, once there is nothing to recover. */
    method SwapClean(plan: Plan, backupAt: nat, unstashAt: nat, empty: C, recovered: bool) returns (result: SwapResult)
      requires marker == NoMarker
      modifies this
      ensures Machine(OnDisk(), Idle) == Finished(Machine(old(OnDisk()), Mark(plan)), backupAt, unstashAt, empty)
      ensures result.recovered == recovered
      ensures result.stashed == if Named(plan.oldProfile) && Active in old(dirs) then plan.oldProfile else None
      ensures result.restored.Some? ==> result.restored == plan.newProfile && !result.created
      ensures result.created <==> |contents| > old(|contents|)
    {
      hide Renamed;
      var stashed, restored, created := None, None, false;
      ghost var d0 := OnDisk();
      marker := Marked(plan);
      ghost var d1 := OnDisk();
      var oldProfile, newProfile := plan.oldProfile, plan.newProfile;
      if Named(oldProfile) && Active in dirs {
        var stash := Stash(oldProfile.value);
        if stash in dirs {
          Rename(stash, Backup(oldProfile.value, backupAt));
        }
        ActiveStays(d1, stash, Backup(oldProfile.value, backupAt));
        ghost var d2 := OnDisk();
        Rename(Active, stash);
        assert OnDisk() == MovedOut(d2, plan);
        stashed := oldProfile;
      }
      ghost var d3 := OnDisk();
      assert d3 == MovedOut(AfterBackup(d1, plan, backupAt), plan);
      assert |d3.contents| == |d0.contents|;
      if Named(newProfile) {
        var restore := Stash(newProfile.value);
        if restore in dirs {
          if Active in dirs {
            Rename(Active, Unstashed(unstashAt));
          }
          ActiveStays(d3, Active, Unstashed(unstashAt));
          assert restore in dirs by { StashStays(d3, newProfile.value, unstashAt); }
          Rename(restore, Active);
          restored := newProfile;
        } else if Active !in dirs {
          dirs := dirs[Active := |contents|];
          contents := contents + [empty];
          created := true;
        }
      }
      assert OnDisk() == MovedIn(AfterClear(d3, plan, unstashAt), plan, empty);
      marker := NoMarker;
      SwapSteps(d0, plan, backupAt, unstashAt, empty);
      result := SwapResult(stashed, restored, recovered, created);
    }

    /** `swap_memory` */
    method SwapMemory(plan: Plan, backupAt: nat, unstashAt: nat, empty: C) returns (result: SwapResult)
      modifies this
      ensures Machine(OnDisk(), Idle) == Finished(Machine(old(OnDisk()), Recover(Some(plan))), backupAt, unstashAt, empty)
      ensures result.recovered == old(marker != NoMarker)
    {
      hide Finished;
      RecoverThenSwap(OnDisk(), plan, backupAt, unstashAt, empty);
      var recovered := RecoverSwap(empty);
      result := SwapClean(plan, backupAt, unstashAt, empty, recovered);
    }
  }

  /** A recovery before a swap is a recovery on its own. */
  lemma RecoverThenSwap<C>(d: Disk<C>, plan: Plan, backupAt: nat, unstashAt: nat, empty: C)
    ensures Finished(Machine(d, Recover(Some(plan))), backupAt, unstashAt, empty)
            == Finished(Machine(Finished(Machine(d, Recover(None)), 0, 0, empty).disk, Mark(plan)), backupAt, unstashAt, empty)
  {
    hide Renamed, RestoreIsMissing;
    RecoverIs(Machine(d, Recover(None)), empty);
    var m := Machine(d, Recover(Some(plan)));
    var m1 := Step(m, unstashAt, empty);
    OneStep(m, backupAt, unstashAt, empty);
    if d.marker != NoMarker {
      OneStep(m1, backupAt, unstashAt, empty);
    } else {
      assert d.(marker := NoMarker) == d;
    }
  }

  function AfterBackup<C>(d: Disk<C>, plan: Plan, at: nat): Disk<C> {
    if StashIsTaken(d, plan) then Renamed(d, Stash(plan.oldProfile.value), Backup(plan.oldProfile.value, at)) else d
  }

  function AfterClear<C>(d: Disk<C>, plan: Plan, at: nat): Disk<C> {
    if ActiveIsInTheWay(d, plan) then Renamed(d, Active, Unstashed(at)) else d
  }

  lemma ActiveStays<C>(d: Disk<C>, src: Name, dst: Name)
    ensures src in d.dirs ==>
      && Renamed(d, src, dst).contents == d.contents && Renamed(d, src, dst).marker == d.marker
      && (src != Active && Active in d.dirs ==> Active in Renamed(d, src, dst).dirs)
  {
  }

  lemma StashStays<C>(d: Disk<C>, p: string, at: nat)
    requires Stash(p) in d.dirs
    ensures Active in d.dirs ==> Stash(p) in Renamed(d, Active, Unstashed(at)).dirs
  {
  }

  lemma RecoverIs<C>(m: Machine<C>, empty: C)
    requires m.proc == Recover(None)
    ensures var d := m.disk;
            Finished(m, 0, 0, empty) ==
            Machine((if d.marker.Marked? && RestoreIsMissing(d, d.marker.plan)
                     then Renamed(d, Stash(d.marker.plan.newProfile.value), Active) else d).(marker := NoMarker), Idle)
  {
    hide Renamed, RestoreIsMissing;
    var m1 := Step(m, 0, empty);
    StepIs(m, 0, empty);
    StepIs(m1, 0, empty);
    StepIs(Step(m1, 0, empty), 0, empty);
  }

  lemma SwapSteps<C>(d: Disk<C>, plan: Plan, backupAt: nat, unstashAt: nat, empty: C)
    ensures Finished(Machine(d, Mark(plan)), backupAt, unstashAt, empty)
            == Machine(MovedIn(AfterClear(MovedOut(AfterBackup(d.(marker := Marked(plan)), plan, backupAt), plan), plan, unstashAt), plan, empty)
                       .(marker := NoMarker), Idle)
  {
    hide MovedOut, MovedIn, Renamed, StashIsTaken, ActiveIsInTheWay;
    var d1 := d.(marker := Marked(plan));
    var d2 := AfterBackup(d1, plan, backupAt);
    var d3 := MovedOut(d2, plan);
    var d4 := AfterClear(d3, plan, unstashAt);
    var d5 := MovedIn(d4, plan, empty);
    OneStep(Machine(d, Mark(plan)), backupAt, unstashAt, empty);
    OneStep(Machine(d1, MakeBackup(plan)), backupAt, unstashAt, empty);
    OneStep(Machine(d2, MoveOut(plan)), backupAt, unstashAt, empty);
    OneStep(Machine(d3, Clear(plan)), backupAt, unstashAt, empty);
    OneStep(Machine(d4, MoveIn(plan)), backupAt, unstashAt, empty);
    OneStep(Machine(d5, Unlink(plan)), backupAt, unstashAt, empty);
    OneStep(Machine(d5.(marker := NoMarker), Idle), backupAt, unstashAt, empty);
  }

  lemma OneStep<C>(m: Machine<C>, backupAt: nat, unstashAt: nat, empty: C)
    ensures Finished(m, backupAt, unstashAt, empty)
            == if m.proc.Idle? then m
               else Finished(Step(m, if m.proc.MakeBackup? then backupAt else unstashAt, empty), backupAt, unstashAt, empty)
  {
  }
}
