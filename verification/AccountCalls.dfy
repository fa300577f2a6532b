/**
 What Restore, Delete and Touch achieve among interleaved calls (internal/api/accounts.go): the counterparts, for calls
 that clear the mark or remove the account, of what Accounts shows for Archive.
 */
module AccountCalls {
  import opened Accounts
  import opened Wrappers

  // ---------------------------------------------------------------- restoring

  /** The call may still set the mark of `id`, or drop its metadata. */
  predicate MayMark(task: Task, id: string) {
    match task
    case ArchiveCheck(a) => a == id
    case ToUnload(a, _) => a == id
    case Stopping(a, forDelete, _) => a == id && forDelete
    case ToRemove(a) => a == id
    case RemoveLocked(a) => a == id
    case RemoveDropped(a) => a == id
    case _ => false
  }

  predicate NoneMarks(s: State, id: string) { forall t :: t in s.tasks ==> !MayMark(s.tasks[t], id) }

  predicate Unmarking(step: Step, id: string) {
    (step.Archive? ==> step.id != id) && (step.Delete? ==> step.id != id)
  }

  /** In use: known, not archived, and nobody is about to change that. */
  predicate InUse(s: State, id: string) { id in s.metas && !s.metas[id].archived && NoneMarks(s, id) }

  /** A save that has read this account's metadata found no mark. */
  predicate ReadUnmarked(task: Task, id: string) {
    task.SaveRead? && task.id == id ==> task.snapshot.Some? && !task.snapshot.value.archived
  }

  predicate ReadsUnmarked(s: State, id: string) { forall t :: t in s.tasks ==> ReadUnmarked(s.tasks[t], id) }

  /** In use in memory and on disk, and no writer can undo it. */
  predicate InUseSaved(s: State, id: string) {
    InUse(s, id) && id in s.disk && !s.disk[id].archived && ReadsUnmarked(s, id)
  }

  /** Call `t` restores `id`: it has cleared the mark, and once it has returned successfully that is saved. */
  predicate Clearing(s: State, id: string, t: nat) {
    InUse(s, id) && t in s.tasks && s.tasks[t].id == id &&
    match s.tasks[t]
    case ToSave(_, caller) => caller == Restorer
    case SaveLocked(_, caller) => caller == Restorer
    case SaveRead(_, caller, snapshot) => caller == Restorer && snapshot.Some? && !snapshot.value.archived
    case Returned(_, caller, ok) => caller == Restorer && (ok ==> InUseSaved(s, id))
    case _ => false
  }

  lemma MarksOnly(s: State, t: nat, c: Choice, id: string)
    requires t in s.tasks && !MayMark(s.tasks[t], id)
    ensures !MayMark(Phase(s, t, c), id)
  {
    hide Archived;
  }

  lemma NoneMarksAdvance(s: State, t: nat, c: Choice, id: string)
    requires NoneMarks(s, id) && t in s.tasks
    ensures NoneMarks(Advance(s, t, c), id)
  {
    hide Advance, MayMark, Phase;
    OnlyTask(s, t, c);
    MarksOnly(s, t, c, id);
  }

  lemma UnmarkedAdvance(s: State, t: nat, c: Choice, id: string)
    requires id in s.metas && !s.metas[id].archived && t in s.tasks && !MayMark(s.tasks[t], id)
    ensures var u := Advance(s, t, c); id in u.metas && !u.metas[id].archived
  {
    hide Phase;
    match s.tasks[t]
    case Loading(_) =>
    case ToUnload(_, _) =>
    case Stopping(_, _, _) =>
    case Counting(_, _) =>
    case Restoring(_) =>
    case SaveRead(_, _, _) =>
    case RemoveLocked(_) =>
    case RemoveDropped(_) =>
    case _ =>
  }

  lemma InUseStays(s: State, step: Step, id: string)
    requires InUse(s, id) && Unmarking(step, id) && !step.Restart?
    ensures InUse(Next(s, step), id)
  {
    hide ValidId, Advance;
    if step.Go? && step.call in s.tasks {
      NoneMarksAdvance(s, step.call, step.choice, id);
      UnmarkedAdvance(s, step.call, step.choice, id);
    }
  }

  lemma NewReadUnmarked(s: State, t: nat, c: Choice, id: string)
    requires id in s.metas && !s.metas[id].archived && t in s.tasks && ReadUnmarked(s.tasks[t], id)
    ensures ReadUnmarked(Phase(s, t, c), id)
  {
  }

  lemma ReadsUnmarkedStays(s: State, step: Step, id: string)
    requires InUse(s, id) && ReadsUnmarked(s, id) && !step.Restart?
    ensures ReadsUnmarked(Next(s, step), id)
  {
    hide ValidId, MetaOf, Advance, ReadUnmarked, NoneMarks, Phase;
    if step.Go? && step.call in s.tasks {
      OnlyTask(s, step.call, step.choice);
      NewReadUnmarked(s, step.call, step.choice, id);
    } else {
      NotRead(id);
    }
  }

  /** Calls do not begin inside a save. */
  lemma NotRead(id: string)
    ensures forall task: Task :: !task.SaveRead? ==> ReadUnmarked(task, id)
  {
  }

  lemma InUseSavedStays(s: State, step: Step, id: string)
    requires InUseSaved(s, id) && Unmarking(step, id) && !step.Restart?
    ensures InUseSaved(Next(s, step), id)
  {
    hide NoneMarks, ReadsUnmarked, Advance, ValidId, MetaOf;
    InUseStays(s, step, id);
    ReadsUnmarkedStays(s, step, id);
    if step.Go? && step.call in s.tasks {
      SavedAdvance(s, step.call, step.choice, id);
    }
  }

  lemma SavedAdvance(s: State, t: nat, c: Choice, id: string)
    requires InUseSaved(s, id) && t in s.tasks
    ensures var u := Advance(s, t, c); id in u.disk && !u.disk[id].archived
  {
    hide MetaOf, Archived, Phase;
    assert !MayMark(s.tasks[t], id);
  }

  /** The section that clears the mark is where it begins; it also records the restore as activity. */
  lemma MarkCleared(s: State, t: nat, id: string, c: Choice)
    requires t in s.tasks && s.tasks[t] == Restoring(id) && NoneMarks(s, id)
    ensures Clearing(Advance(s, t, c), id, t)
    ensures var m := Advance(s, t, c).metas[id];
      m == MetaOf(s, id).(archived := false, archivedAt := None, active := Some(c.now))
  {
  }

  lemma ClearingStays(s: State, step: Step, id: string, t: nat)
    requires Inv(s) && Clearing(s, id, t) && Unmarking(step, id) && !step.Restart?
    ensures Clearing(Next(s, step), id, t)
  {
    hide Inv, InUse, InUseSaved, Next;
    InUseStays(s, step, id);
    if s.tasks[t].Returned? {
      if s.tasks[t].ok {
        InUseSavedStays(s, step, id);
      }
      OthersStay(s, step, t);
    } else if step.Go? && step.call == t {
      assert Next(s, step) == Advance(s, t, step.choice) by { GoAdvances(s, t, step.choice); }
      OwnClearing(s, step.choice, id, t);
    } else {
      OthersStay(s, step, t);
    }
  }

  lemma OwnClearing(s: State, c: Choice, id: string, t: nat)
    requires Inv(s) && Clearing(s, id, t) && !s.tasks[t].Returned? && InUse(Advance(s, t, c), id)
    ensures Clearing(Advance(s, t, c), id, t)
  {
    hide Inv, NoneMarks, MetaOf, ReadsUnmarked;
    if s.tasks[t].SaveRead? {
      OnlyUnmarkedReader(s, t, c, id);
    }
  }

  lemma OnlyUnmarkedReader(s: State, t: nat, c: Choice, id: string)
    requires Inv(s) && t in s.tasks && s.tasks[t].SaveRead?
    ensures ReadsUnmarked(Advance(s, t, c), id)
  {
    hide Apart, OnePlace, NoneForgotten;
    forall v | v in s.tasks && v != t ensures !s.tasks[v].SaveRead? {
    }
  }

  /**
   From the moment a Restore call clears the mark: unless an archival or deletion of the account is under way or starts,
   it stays cleared, and once the call has returned successfully the saved metadata is not archived.
   */
  lemma {:induction false} RestoreHolds(s: State, steps: seq<Step>, id: string, t: nat)
    requires Inv(s) && Clearing(s, id, t)
    requires forall i :: 0 <= i < |steps| ==> Unmarking(steps[i], id) && !steps[i].Restart?
    ensures Clearing(Run(s, steps), id, t) && !Archived(Run(s, steps), id)
    ensures var u := Run(s, steps); u.tasks[t] == Returned(id, Restorer, true) ==> id in u.disk && !u.disk[id].archived
    decreases steps
  {
    hide Inv, Next, Unmarking;
    if steps != [] {
      hide Clearing;
      StepKeeps(s, steps[0]);
      ClearingStays(s, steps[0], id, t);
      RestoreHolds(Next(s, steps[0]), steps[1..], id, t);
    }
  }

  // ---------------------------------------------------------------- deleting

  /** The call will make metadata of `id`, if there is none. */
  predicate MakesMeta(task: Task, id: string) {
    match task
    case ArchiveCheck(a) => a == id
    case ToUnload(a, _) => a == id
    case Stopping(a, forDelete, _) => a == id && !forDelete
    case Counting(a, _) => a == id
    case Restoring(a) => a == id
    case _ => false
  }

  predicate NoneMakes(s: State, id: string) { forall t :: t in s.tasks ==> !MakesMeta(s.tasks[t], id) }

  /** Apart from Get, no new call about the account. */
  predicate Leaves(step: Step, id: string) {
    (step.Touch? ==> step.id != id) && (step.Archive? ==> step.id != id) && (step.Restore? ==> step.id != id) &&
    (step.Delete? ==> step.id != id)
  }

  predicate Unknown(s: State, id: string) { id !in s.metas && NoneMakes(s, id) }

  predicate ReadNothing(task: Task, id: string) { task.SaveRead? && task.id == id ==> task.snapshot.None? }

  predicate ReadsNothing(s: State, id: string) { forall t :: t in s.tasks ==> ReadNothing(s.tasks[t], id) }

  /** Neither memory nor disk has the account, and no writer brings it back. */
  predicate Erased(s: State, id: string) { Unknown(s, id) && id !in s.disk && ReadsNothing(s, id) }

  lemma MakesOnly(s: State, t: nat, c: Choice, id: string)
    requires t in s.tasks && !MakesMeta(s.tasks[t], id)
    ensures !MakesMeta(Phase(s, t, c), id)
  {
    hide Archived;
  }

  lemma NoneMakesAdvance(s: State, t: nat, c: Choice, id: string)
    requires NoneMakes(s, id) && t in s.tasks
    ensures NoneMakes(Advance(s, t, c), id)
  {
    hide Advance, MakesMeta, Phase;
    OnlyTask(s, t, c);
    MakesOnly(s, t, c, id);
  }

  lemma UnknownAdvance(s: State, t: nat, c: Choice, id: string)
    requires id !in s.metas && t in s.tasks && !MakesMeta(s.tasks[t], id)
    ensures id !in Advance(s, t, c).metas
  {
    hide Phase, MetaOf;
    match s.tasks[t]
    case Loading(_) =>
    case ToUnload(_, _) =>
    case Stopping(_, _, _) =>
    case Counting(_, _) =>
    case Restoring(_) =>
    case SaveRead(_, _, _) =>
    case RemoveLocked(_) =>
    case RemoveDropped(_) =>
    case _ =>
  }

  lemma UnknownStays(s: State, step: Step, id: string)
    requires Unknown(s, id) && Leaves(step, id) && !step.Restart?
    ensures Unknown(Next(s, step), id)
  {
    hide ValidId, Advance, MetaOf;
    if step.Go? && step.call in s.tasks {
      NoneMakesAdvance(s, step.call, step.choice, id);
      UnknownAdvance(s, step.call, step.choice, id);
    }
  }

  lemma NewReadNothing(s: State, t: nat, c: Choice, id: string)
    requires id !in s.metas && t in s.tasks && ReadNothing(s.tasks[t], id)
    ensures ReadNothing(Phase(s, t, c), id)
  {
  }

  lemma ErasedStays(s: State, step: Step, id: string)
    requires Erased(s, id) && Leaves(step, id)
    ensures Erased(Next(s, step), id)
  {
    hide Advance, ValidId, MetaOf, NoneMakes, ReadNothing, Phase;
    if step.Restart? {
      ErasedRestart(s, id);
    } else {
      UnknownStays(s, step, id);
      if step.Go? && step.call in s.tasks {
        OnlyTask(s, step.call, step.choice);
        NewReadNothing(s, step.call, step.choice, id);
        ErasedDisk(s, step.call, step.choice, id);
      } else {
        NothingRead(id);
      }
    }
  }

  lemma NothingRead(id: string)
    ensures forall task: Task :: !task.SaveRead? ==> ReadNothing(task, id)
  {
  }

  lemma ErasedRestart(s: State, id: string)
    requires id !in s.disk
    ensures Erased(Next(s, Restart), id)
  {
  }

  lemma ErasedDisk(s: State, t: nat, c: Choice, id: string)
    requires Erased(s, id) && t in s.tasks
    ensures id !in Advance(s, t, c).disk
  {
    hide MetaOf, Archived, Phase, NoneMakes;
    assert ReadNothing(s.tasks[t], id);
  }

  /** Delayed writers, loads and restarts do not bring an erased account back. */
  lemma {:induction false} ErasedForever(s: State, steps: seq<Step>, id: string)
    requires Erased(s, id) && forall i :: 0 <= i < |steps| ==> Leaves(steps[i], id)
    ensures Erased(Run(s, steps), id)
    decreases steps
  {
    hide Erased, Next, Leaves;
    if steps != [] {
      ErasedStays(s, steps[0], id);
      ErasedForever(Next(s, steps[0]), steps[1..], id);
    }
  }

  /** Call `t` deletes `id`: it has dropped the metadata, and once it has returned successfully the account is erased. */
  predicate Dropping(s: State, id: string, t: nat) {
    Unknown(s, id) && t in s.tasks && s.tasks[t].id == id &&
    match s.tasks[t]
    case RemoveDropped(_) => true
    case Returned(_, caller, ok) => caller == Deleter && (ok ==> Erased(s, id))
    case _ => false
  }

  lemma MetaDropped(s: State, t: nat, id: string, c: Choice)
    requires t in s.tasks && s.tasks[t] == RemoveLocked(id) && NoneMakes(s, id)
    ensures Dropping(Advance(s, t, c), id, t)
  {
  }

  lemma DroppingStays(s: State, step: Step, id: string, t: nat)
    requires Inv(s) && Dropping(s, id, t) && Leaves(step, id) && !step.Restart?
    ensures Dropping(Next(s, step), id, t)
  {
    hide Inv, Unknown, Erased, Next;
    UnknownStays(s, step, id);
    if s.tasks[t].Returned? {
      if s.tasks[t].ok {
        ErasedStays(s, step, id);
      }
      OthersStay(s, step, t);
    } else if step.Go? && step.call == t {
      assert Next(s, step) == Advance(s, t, step.choice) by { GoAdvances(s, t, step.choice); }
      OwnDropping(s, step.choice, id, t);
    } else {
      OthersStay(s, step, t);
    }
  }

  lemma OwnDropping(s: State, c: Choice, id: string, t: nat)
    requires Inv(s) && t in s.tasks && s.tasks[t] == RemoveDropped(id) && Unknown(Advance(s, t, c), id)
    ensures Dropping(Advance(s, t, c), id, t)
  {
    hide Apart, OnePlace, NoneForgotten, NoneMakes;
    forall v | v in s.tasks && v != t ensures !s.tasks[v].SaveRead? {
    }
  }

  /**
   From the moment a Delete call drops the metadata, with no other call about the account under way or starting: once it
   has returned successfully the account is neither in memory nor on disk, whatever activity writers were scheduled.
   */
  lemma {:induction false} DeleteHolds(s: State, steps: seq<Step>, id: string, t: nat)
    requires Inv(s) && Dropping(s, id, t)
    requires forall i :: 0 <= i < |steps| ==> Leaves(steps[i], id) && !steps[i].Restart?
    ensures Dropping(Run(s, steps), id, t)
    ensures var u := Run(s, steps);
      u.tasks[t] == Returned(id, Deleter, true) ==> id !in u.metas && id !in u.disk && Erased(u, id)
    decreases steps
  {
    hide Inv, Next, Leaves;
    if steps != [] {
      hide Dropping;
      StepKeeps(s, steps[0]);
      DroppingStays(s, steps[0], id, t);
      DeleteHolds(Next(s, steps[0]), steps[1..], id, t);
    }
  }

  // ---------------------------------------------------------------- activity

  /** A Touch records its time and nothing else, and schedules a save exactly if the last one is an hour old. */
  lemma TouchExact(s: State, t: nat, id: string, now: int)
    requires t !in s.tasks
    ensures var u := Next(s, Touch(t, id, now));
      var due := id !in s.metas || now >= s.metas[id].persisted + 3600;
      u.metas.Keys == s.metas.Keys + {id} && (forall a :: a in s.metas && a != id ==> u.metas[a] == s.metas[a]) &&
      u.metas[id].active == Some(now) && u.metas[id].archived == Archived(s, id) &&
      (now >= -62135596800 + 3600 ==> (t in u.tasks <==> due)) && (t in u.tasks ==> u.tasks[t] == ToSave(id, Activity)) &&
      (now >= -62135596800 + 3600 ==> u.metas[id].persisted == if due then now else s.metas[id].persisted)
  {
  }

  /** What a save writes is the metadata of the moment it took the lock, not of the moment it was scheduled. */
  lemma SaveCurrent(s: State, t: nat, id: string, caller: Caller, c: Choice)
    requires t in s.tasks && s.tasks[t] == SaveLocked(id, caller)
    ensures Advance(s, t, c).tasks[t] == SaveRead(id, caller, if id in s.metas then Some(s.metas[id]) else None)
    ensures forall d: Choice :: var r := Advance(Advance(s, t, c), t, d);
      r.disk == if id in s.metas && d.ok then s.disk[id := s.metas[id]] else s.disk
  {
  }

  /** The step is accepted and touches, archives, restores or deletes `id`. */
  predicate Takes(s: State, step: Step, id: string) {
    match step
    case Touch(t, a, _) => a == id && t !in s.tasks
    case Archive(t, a, onDisk) => a == id && t !in s.tasks && Mutable(s, a, onDisk)
    case Restore(t, a, onDisk) => a == id && t !in s.tasks && Mutable(s, a, onDisk)
    case Delete(t, a, onDisk) => a == id && t !in s.tasks && Mutable(s, a, onDisk)
    case _ => false
  }

  /** An erased account stays erased through exactly the steps that are not an accepted call about it. */
  lemma ErasedExact(s: State, step: Step, id: string)
    requires Erased(s, id)
    ensures Erased(Next(s, step), id) <==> !Takes(s, step, id)
  {
    hide Erased, ValidId, MetaOf;
    if !Takes(s, step, id) {
      if Leaves(step, id) {
        ErasedStays(s, step, id);
      }
    } else if step.Touch? {
      assert id in Next(s, step).metas;
      assert !Erased(Next(s, step), id) by { KnownNotErased(Next(s, step), id); }
    } else {
      var u := Next(s, step);
      assert MakesMeta(u.tasks[step.call], id);
      MakerNotErased(u, id, step.call);
    }
  }

  lemma KnownNotErased(s: State, id: string)
    requires id in s.metas
    ensures !Erased(s, id)
  {
  }

  lemma MakerNotErased(s: State, id: string, t: nat)
    requires t in s.tasks && MakesMeta(s.tasks[t], id)
    ensures !Erased(s, id)
  {
  }

  /** A single Touch after the deletion, once its writer has run, puts metadata back on disk. */
  lemma TouchRevives(s: State, t: nat, id: string, now: int, c: Choice)
    requires Erased(s, id) && t !in s.tasks && s.writer.None? && now >= -62135596800 + 3600 && c.ok
    ensures var u := Next(Next(Next(Next(s, Touch(t, id, now)), Go(t, c)), Go(t, c)), Go(t, c));
      id in u.metas && id in u.disk && u.disk[id].active == Some(now)
  {
    var s1 := Next(s, Touch(t, id, now));
    assert id in s1.metas && s1.metas[id].active == Some(now) && t in s1.tasks && s1.tasks[t] == ToSave(id, Activity) by {
      TouchExact(s, t, id, now);
    }
    assert s1.writer.None? by { hide Erased; }
    var s2 := Next(s1, Go(t, c));
    assert s2.metas == s1.metas && t in s2.tasks && s2.tasks[t] == SaveLocked(id, Activity) by { hide Erased, Touched; }
    var s3 := Next(s2, Go(t, c));
    assert s3.metas == s1.metas && t in s3.tasks && s3.tasks[t].SaveRead? by { hide Erased, Touched; }
    assert Next(s3, Go(t, c)).disk == s2.disk[id := s2.metas[id]] by {
      hide Erased, Touched, Phase;
      SaveCurrent(s2, t, id, Activity, c);
    }
    assert id in Next(s3, Go(t, c)).metas by { hide Erased, Touched; }
  }

  // ---------------------------------------------------------------- what calls write down

  /** Taking an account out marks it, with a time if it is archived, and hands its bundle to the call to be stopped. */
  lemma UnloadExact(s: State, t: nat, id: string, forDelete: bool, c: Choice)
    requires t in s.tasks && s.tasks[t] == ToUnload(id, forDelete) && s.loader.None?
    ensures var u := Advance(s, t, c);
      u.metas.Keys == s.metas.Keys + {id} && (forall a :: a in s.metas && a != id ==> u.metas[a] == s.metas[a]) &&
      u.metas[id].archived && u.metas[id].active == MetaOf(s, id).active && u.metas[id].resources == MetaOf(s, id).resources &&
      u.metas[id].archivedAt == (if forDelete then MetaOf(s, id).archivedAt else Some(c.now)) &&
      u.tasks[t].Stopping? && u.tasks[t].id == id && u.tasks[t].forDelete == forDelete && id !in u.bundles &&
      (u.tasks[t].bundle.Some? <==> id in s.bundles) && (id in s.bundles ==> u.tasks[t].bundle.value == s.bundles[id])
  {
  }

  /** Archiving writes down the resource counts of the bundle it stopped, if there was one, and leaves the rest. */
  lemma CountsRecorded(s: State, t: nat, id: string, bundle: Option<nat>, c: Choice, d: Choice)
    requires t in s.tasks && s.tasks[t] == Stopping(id, false, bundle)
    ensures var m := Advance(Advance(s, t, c), t, d).metas;
      id in m && m[id].archived == Archived(s, id) && m[id].archivedAt == MetaOf(s, id).archivedAt &&
      m[id].active == MetaOf(s, id).active && m[id].resources == (if bundle.None? then MetaOf(s, id).resources else Some(c.counts))
    ensures var u := Advance(s, t, c); u.stops == s.stops + (if bundle.None? then [] else [bundle.value])
  {
  }

  /** A restart keeps to the hour: activity within an hour of the saved one is not written again. */
  lemma RestartKeepsHour(s: State, t: nat, id: string, now: int)
    requires id in s.disk
    ensures var u := Next(Next(s, Restart), Touch(t, id, now));
      t in u.tasks <==> now >= (if s.disk[id].active.Some? then s.disk[id].active.value else NEVER) + 3600
  {
  }

  // ---------------------------------------------------------------- a call stays what it is

  /** What the call is doing it for. */
  function CallerOf(task: Task): Caller {
    match task
    case Loading(_) => Getter
    case ArchiveCheck(_) => Archiver
    case ToUnload(_, forDelete) => if forDelete then Deleter else Archiver
    case Stopping(_, forDelete, _) => if forDelete then Deleter else Archiver
    case Counting(_, _) => Archiver
    case Restoring(_) => Restorer
    case ToSave(_, caller) => caller
    case SaveLocked(_, caller) => caller
    case SaveRead(_, caller, _) => caller
    case ToRemove(_) => Deleter
    case RemoveLocked(_) => Deleter
    case RemoveDropped(_) => Deleter
    case Returned(_, caller, _) => caller
  }

  predicate CalledFor(s: State, t: nat, caller: Caller, id: string) {
    t in s.tasks && CallerOf(s.tasks[t]) == caller && s.tasks[t].id == id
  }

  /**
   Archive, Restore and Delete are accepted exactly for a free call number and a known account of twelve digits other
   than the default, and begin as what they are.
   */
  lemma AcceptedExact(s: State, step: Step)
    requires step.Archive? || step.Restore? || step.Delete?
    ensures var known := step.id in s.metas || step.id in s.bundles || step.onDisk;
      if step.call !in s.tasks && Proper(s, step.id) && known then
        Next(s, step).tasks.Keys == s.tasks.Keys + {step.call} &&
        CalledFor(Next(s, step), step.call,
          if step.Archive? then Archiver else if step.Restore? then Restorer else Deleter, step.id) &&
        !Next(s, step).tasks[step.call].Returned?
      else Next(s, step) == s
  {
    hide ValidId, Proper;
    ValidProper(s, step.id);
  }

  lemma CallStays(s: State, step: Step, t: nat, caller: Caller, id: string)
    requires CalledFor(s, t, caller, id) && !step.Restart?
    ensures CalledFor(Next(s, step), t, caller, id)
  {
    hide Advance, ValidId, Archived;
    if step.Go? && step.call in s.tasks {
      OnlyTask(s, step.call, step.choice);
    }
  }

  /** Whatever runs beside it, a call goes on as what it began, about its account. */
  lemma {:induction false} CallsReturnAsCalled(s: State, steps: seq<Step>, t: nat, caller: Caller, id: string)
    requires CalledFor(s, t, caller, id) && forall i :: 0 <= i < |steps| ==> !steps[i].Restart?
    ensures CalledFor(Run(s, steps), t, caller, id)
    decreases steps
  {
    hide CalledFor, Next;
    if steps != [] {
      CallStays(s, steps[0], t, caller, id);
      CallsReturnAsCalled(Next(s, steps[0]), steps[1..], t, caller, id);
    }
  }

  // ---------------------------------------------------------------- which accounts calls are about

  /** Twelve digits, and not the default account. */
  predicate Proper(s: State, id: string) {
    |id| == 12 && (forall i :: 0 <= i < 12 ==> id[i] in {'0', '1', '2', '3', '4', '5', '6', '7', '8', '9'}) && id != s.defaultId
  }

  /** The call may mark, unmark, stop or remove an account. */
  predicate Changes(task: Task) {
    match task
    case Loading(_) => false
    case ToSave(_, caller) => caller != Activity
    case SaveLocked(_, caller) => caller != Activity
    case SaveRead(_, caller, _) => caller != Activity
    case Returned(_, _, _) => false
    case _ => true
  }

  /** What the call is about to save is not an archived mark of some other account. */
  predicate SavesProper(s: State, task: Task) {
    task.SaveRead? && task.snapshot.Some? && task.snapshot.value.archived ==> Proper(s, task.id)
  }

  ghost predicate ProperOnly(s: State) {
    (forall t :: t in s.tasks ==> (Changes(s.tasks[t]) ==> Proper(s, s.tasks[t].id)) && SavesProper(s, s.tasks[t])) &&
    (forall id :: Archived(s, id) ==> Proper(s, id)) && forall id :: id in s.disk && s.disk[id].archived ==> Proper(s, id)
  }

  lemma ValidProper(s: State, id: string)
    ensures ValidId(id) && id != s.defaultId <==> Proper(s, id)
  {
  }

  lemma Sames(s: State, t: nat, c: Choice)
    requires t in s.tasks
    ensures Advance(s, t, c).defaultId == s.defaultId && Phase(s, t, c).id == s.tasks[t].id
  {
  }

  lemma ProperAdvance(s: State, t: nat, c: Choice)
    requires ProperOnly(s) && t in s.tasks
    ensures ProperOnly(Advance(s, t, c)) && Advance(s, t, c).defaultId == s.defaultId
  {
    hide Proper, Advance, Phase, Changes, SavesProper, Archived;
    Sames(s, t, c);
    OnlyTask(s, t, c);
    SameProper(s, Advance(s, t, c));
    ProperMetas(s, t, c);
    ProperTask(s, t, c);
  }

  lemma SameProper(s: State, u: State)
    requires s.defaultId == u.defaultId
    ensures forall id :: Proper(s, id) <==> Proper(u, id)
    ensures forall task :: SavesProper(s, task) <==> SavesProper(u, task)
  {
  }

  lemma ProperTask(s: State, t: nat, c: Choice)
    requires ProperOnly(s) && t in s.tasks
    ensures Changes(Phase(s, t, c)) ==> Proper(s, s.tasks[t].id)
    ensures SavesProper(s, Phase(s, t, c))
  {
    hide Proper;
    assert Changes(s.tasks[t]) ==> Proper(s, s.tasks[t].id);
    assert Archived(s, s.tasks[t].id) ==> Proper(s, s.tasks[t].id);
  }

  lemma ProperMetas(s: State, t: nat, c: Choice)
    requires ProperOnly(s) && t in s.tasks
    ensures var u := Advance(s, t, c);
      (forall id :: Archived(u, id) ==> Proper(s, id)) && forall id :: id in u.disk && u.disk[id].archived ==> Proper(s, id)
  {
    hide Proper, Phase;
    assert Changes(s.tasks[t]) ==> Proper(s, s.tasks[t].id);
    assert SavesProper(s, s.tasks[t]);
  }

  lemma ProperTouch(s: State, t: nat, id: string, now: int)
    requires ProperOnly(s)
    ensures ProperOnly(Touched(s, t, id, now))
  {
    hide Proper;
    SameProper(s, Touched(s, t, id, now));
    assert Archived(s, id) ==> Proper(s, id);
  }

  lemma ProperRestart(s: State)
    requires ProperOnly(s)
    ensures ProperOnly(Next(s, Restart))
  {
    hide Proper;
    SameProper(s, Next(s, Restart));
  }

  lemma ProperBegins(s: State, t: nat, task: Task, u: State)
    requires ProperOnly(s) && !task.SaveRead? && (Changes(task) ==> Proper(s, task.id))
    requires u.defaultId == s.defaultId && u.metas == s.metas && u.disk == s.disk && u.tasks == s.tasks[t := task]
    ensures ProperOnly(u)
  {
    hide Proper, Changes;
    SameProper(s, u);
  }

  lemma ProperStep(s: State, step: Step)
    requires ProperOnly(s)
    ensures ProperOnly(Next(s, step)) && Next(s, step).defaultId == s.defaultId
  {
    hide Proper, ProperOnly, Advance, ValidId, Touched, Archived;
    var u := Next(s, step);
    match step
    case Get(t, id) =>
      if u != s {
        ProperBegins(s, t, Loading(id), u);
      }
    case Touch(t, id, now) =>
      ProperTouch(s, t, id, now);
      assert Touched(s, t, id, now).defaultId == s.defaultId by { TouchedDefault(s, t, id, now); }
    case Archive(t, id, onDisk) =>
      ValidProper(s, id);
      if u != s {
        ProperBegins(s, t, ArchiveCheck(id), u);
      }
    case Restore(t, id, onDisk) =>
      ValidProper(s, id);
      if u != s {
        ProperBegins(s, t, Restoring(id), u);
      }
    case Delete(t, id, onDisk) =>
      ValidProper(s, id);
      if u != s {
        ProperBegins(s, t, ToUnload(id, true), u);
      }
    case Go(t, c) =>
      if t in s.tasks {
        ProperAdvance(s, t, c);
      }
    case Restart => ProperRestart(s);
  }

  lemma TouchedDefault(s: State, t: nat, id: string, now: int)
    ensures Touched(s, t, id, now).defaultId == s.defaultId
  {
  }

  /**
   In every run no call marks, unmarks, stops or removes the default account, or an id that is not twelve digits, and no
   such account is archived, in memory or on disk.
   */
  lemma {:induction false} ProperAlways(s: State, steps: seq<Step>)
    requires ProperOnly(s)
    ensures ProperOnly(Run(s, steps)) && Run(s, steps).defaultId == s.defaultId
    decreases steps
  {
    hide ProperOnly, Next;
    if steps != [] {
      ProperStep(s, steps[0]);
      ProperAlways(Next(s, steps[0]), steps[1..]);
    }
  }

  lemma DefaultStays(defaultId: string, steps: seq<Step>)
    ensures var u := Run(Start(defaultId), steps); ProperOnly(u) && !Archived(u, defaultId)
  {
    hide Run;
    ProperAlways(Start(defaultId), steps);
  }
}
