/**
 The account registry (internal/api/accounts.go, HandlerRegistry in server.go): accounts are loaded on first use,
 archived, restored and deleted, while delayed writers save their metadata.  Every critical section is one step, the
 two long-held locks (the registry lock during a load, the write lock during a save or a removal) are part of the
 state, and any number of calls interleave.
 */
module Accounts {
  import opened Wrappers

  type Counts = map<string, nat>

  /** accountMeta; `persisted` is not part of the saved form. */
  datatype Meta = Meta(
    active: Option<int>, archived: bool, archivedAt: Option<int>, resources: Option<Counts>, persisted: int)

  /** The zero time. */
  const NEVER := -62135596800

  const NEW_META := Meta(None, false, None, None, NEVER)

  /** activityPersistInterval, in seconds. */
  const PERSIST_INTERVAL := 3600

  datatype Caller = Getter | Activity | Archiver | Restorer | Deleter

  /** Where a call stands.  `bundle` names a service bundle; every bundle built gets a new number. */
  datatype Task =
    | Loading(id: string)
    | ArchiveCheck(id: string)
    | ToUnload(id: string, forDelete: bool)
    | Stopping(id: string, forDelete: bool, bundle: Option<nat>)
    | Counting(id: string, counts: Option<Counts>)
    | Restoring(id: string)
    | ToSave(id: string, caller: Caller)
    | SaveLocked(id: string, caller: Caller)
    | SaveRead(id: string, caller: Caller, snapshot: Option<Meta>)
    | ToRemove(id: string)
    | RemoveLocked(id: string)
    | RemoveDropped(id: string)
    | Returned(id: string, caller: Caller, ok: bool)

  /** `stops` logs the calls of a bundle's stop function; `lost` are bundles that went with a process. */
  datatype State = State(
    defaultId: string, metas: map<string, Meta>, disk: map<string, Meta>, bundles: map<string, nat>,
    tasks: map<nat, Task>, loader: Option<nat>, writer: Option<nat>,
    built: nat, stops: seq<nat>, lost: set<nat>)

  // ---------------------------------------------------------------- steps

  predicate Archived(s: State, id: string) { id in s.metas && s.metas[id].archived }

  /** metaLocked. */
  function MetaOf(s: State, id: string): Meta { if id in s.metas then s.metas[id] else NEW_META }

  predicate ValidId(id: string) { |id| == 12 && forall i :: 0 <= i < |id| ==> '0' <= id[i] <= '9' }

  /** checkMutable; `onDisk` says whether the account has a data directory. */
  predicate Mutable(s: State, id: string, onDisk: bool) {
    ValidId(id) && id != s.defaultId && (id in s.metas || id in s.bundles || onDisk)
  }

  /** What the environment decides during a step. */
  datatype Choice = Choice(now: int, ok: bool, counts: Counts)

  function SetTask(s: State, t: nat, task: Task): State { s.(tasks := s.tasks[t := task]) }

  function SetMeta(s: State, id: string, m: Meta): State { s.(metas := s.metas[id := m]) }

  /** Where call `t` stands after its next critical section; one that has to wait for a lock stays where it is. */
  function Phase(s: State, t: nat, c: Choice): Task
    requires t in s.tasks
  {
    match s.tasks[t]
    case Loading(id) => Returned(id, Getter, c.ok)
    case ArchiveCheck(id) => if Archived(s, id) then Returned(id, Archiver, true) else ToUnload(id, false)
    case ToUnload(id, forDelete) =>
      if s.loader.Some? then s.tasks[t]
      else Stopping(id, forDelete, if id in s.bundles then Some(s.bundles[id]) else None)
    case Stopping(id, forDelete, bundle) =>
      if forDelete then ToRemove(id) else Counting(id, if bundle.Some? then Some(c.counts) else None)
    case Counting(id, _) => ToSave(id, Archiver)
    case Restoring(id) => ToSave(id, Restorer)
    case ToSave(id, caller) => if s.writer.Some? then s.tasks[t] else SaveLocked(id, caller)
    case SaveLocked(id, caller) => SaveRead(id, caller, if id in s.metas then Some(s.metas[id]) else None)
    case SaveRead(id, caller, snapshot) => Returned(id, caller, snapshot.None? || c.ok)
    case ToRemove(id) => if s.writer.Some? then s.tasks[t] else RemoveLocked(id)
    case RemoveLocked(id) => RemoveDropped(id)
    case RemoveDropped(id) => Returned(id, Deleter, c.ok)
    case Returned(_, _, _) => s.tasks[t]
  }

  /** The last part of get and PreInit: file the bundle just built, release the registry lock. */
  function Load(s: State, id: string, ok: bool): State {
    var u := s.(loader := None);
    if ok then u.(bundles := u.bundles[id := u.built], built := u.built + 1) else u
  }

  /** unload's critical section: mark the metadata and take the bundle out. */
  function Unload(s: State, id: string, forDelete: bool, now: int): State {
    var m := MetaOf(s, id);
    var marked := if forDelete then m.(archived := true) else m.(archived := true, archivedAt := Some(now));
    SetMeta(s, id, marked).(bundles := s.bundles - {id})
  }

  function Saved(s: State, id: string, snapshot: Option<Meta>, ok: bool): State {
    var u := s.(writer := None);
    if snapshot.Some? && ok then u.(disk := u.disk[id := snapshot.value]) else u
  }

  function Removed(s: State, id: string, ok: bool): State {
    var u := s.(writer := None);
    if ok then u.(disk := u.disk - {id}) else u
  }

  /** The next critical section of call `t`. */
  function Advance(s: State, t: nat, c: Choice): State
    requires t in s.tasks
  {
    var u := s.(tasks := s.tasks[t := Phase(s, t, c)]);
    match s.tasks[t]
    case Loading(id) => Load(u, id, c.ok)
    case ToUnload(id, forDelete) => if s.loader.Some? then u else Unload(u, id, forDelete, c.now)
    case Stopping(_, _, bundle) => if bundle.Some? then u.(stops := u.stops + [bundle.value]) else u
    case Counting(id, counts) => SetMeta(u, id, if counts.Some? then MetaOf(s, id).(resources := counts) else MetaOf(s, id))
    case Restoring(id) => SetMeta(u, id, MetaOf(s, id).(archived := false, archivedAt := None, active := Some(c.now)))
    case ToSave(_, _) => if s.writer.Some? then u else u.(writer := Some(t))
    case SaveRead(id, _, snapshot) => Saved(u, id, snapshot, c.ok)
    case ToRemove(_) => if s.writer.Some? then u else u.(writer := Some(t))
    case RemoveLocked(id) => u.(metas := u.metas - {id})
    case RemoveDropped(id) => Removed(u, id, c.ok)
    case _ => u
  }

  datatype Step =
    | Get(call: nat, id: string)
    | Touch(call: nat, id: string, now: int)
    | Archive(call: nat, id: string, onDisk: bool)
    | Restore(call: nat, id: string, onDisk: bool)
    | Delete(call: nat, id: string, onDisk: bool)
    | Go(call: nat, choice: Choice)
    | Restart

  function Touched(s: State, t: nat, id: string, now: int): State {
    var m := MetaOf(s, id).(active := Some(now));
    if now - m.persisted >= PERSIST_INTERVAL
    then SetTask(SetMeta(s, id, m.(persisted := now)), t, ToSave(id, Activity))
    else SetMeta(s, id, m)
  }

  /** readAccountMeta. */
  function Reread(m: Meta): Meta { m.(persisted := if m.active.Some? then m.active.value else NEVER) }

  function Next(s: State, step: Step): State {
    match step
    case Get(t, id) =>
      if t in s.tasks || s.loader.Some? || id in s.bundles || Archived(s, id) then s
      else SetTask(s, t, Loading(id)).(loader := Some(t))
    case Touch(t, id, now) => if t in s.tasks then s else Touched(s, t, id, now)
    case Archive(t, id, onDisk) =>
      if t in s.tasks || !Mutable(s, id, onDisk) then s else SetTask(s, t, ArchiveCheck(id))
    case Restore(t, id, onDisk) => if t in s.tasks || !Mutable(s, id, onDisk) then s else SetTask(s, t, Restoring(id))
    case Delete(t, id, onDisk) =>
      if t in s.tasks || !Mutable(s, id, onDisk) then s else SetTask(s, t, ToUnload(id, true))
    case Go(t, c) => if t in s.tasks then Advance(s, t, c) else s
    case Restart =>
      s.(metas := map id | id in s.disk :: Reread(s.disk[id]), bundles := map[], tasks := map[], loader := None, writer := None,
         lost := s.lost + (set b: nat | b < s.built && b !in s.stops))
  }

  // ---------------------------------------------------------------- invariants

  predicate Writes(task: Task) { task.SaveLocked? || task.SaveRead? || task.RemoveLocked? || task.RemoveDropped? }

  /** Each lock is held by exactly the call that is inside its section. */
  ghost predicate Locks(tasks: map<nat, Task>, loader: Option<nat>, writer: Option<nat>) {
    (forall t :: t in tasks ==> (tasks[t].Loading? <==> loader == Some(t)) && (Writes(tasks[t]) <==> writer == Some(t))) &&
    (loader.Some? ==> loader.value in tasks) && (writer.Some? ==> writer.value in tasks)
  }

  predicate ArchivedIn(metas: map<string, Meta>, id: string) { id in metas && metas[id].archived }

  /** Nothing archived is loaded, or being loaded; nothing is loaded twice. */
  ghost predicate Apart(metas: map<string, Meta>, bundles: map<string, nat>, tasks: map<nat, Task>) {
    (forall id :: id in bundles ==> !ArchivedIn(metas, id)) &&
    forall t :: t in tasks && tasks[t].Loading? ==> tasks[t].id !in bundles && !ArchivedIn(metas, tasks[t].id)
  }

  predicate Detached(tasks: map<nat, Task>, t: nat, b: nat) {
    t in tasks && tasks[t].Stopping? && tasks[t].bundle == Some(b)
  }

  predicate Filed(bundles: map<string, nat>, id: string, b: nat) { id in bundles && bundles[id] == b }

  predicate Free(built: nat, stops: seq<nat>, lost: set<nat>, b: nat) { b < built && b !in stops && b !in lost }

  /** A bundle is in one place: filed under one account, detached by one call, stopped once, or lost. */
  ghost predicate OnePlace(
    bundles: map<string, nat>, tasks: map<nat, Task>, built: nat, stops: seq<nat>, lost: set<nat>)
  {
    (forall id, b: nat :: Filed(bundles, id, b) ==> Free(built, stops, lost, b)) &&
    (forall id, id', b: nat :: Filed(bundles, id, b) && Filed(bundles, id', b) ==> id == id') &&
    (forall t: nat, b: nat :: Detached(tasks, t, b) ==> Free(built, stops, lost, b)) &&
    (forall t: nat, t': nat, b: nat :: Detached(tasks, t, b) && Detached(tasks, t', b) ==> t == t') &&
    (forall t: nat, id, b: nat :: Detached(tasks, t, b) ==> !Filed(bundles, id, b)) &&
    Once(stops) && (forall b :: b in stops ==> b < built && b !in lost)
  }

  ghost predicate Once(stops: seq<nat>) { forall i, j :: 0 <= i < j < |stops| ==> stops[i] != stops[j] }

  /** No bundle is forgotten. */
  ghost predicate NoneForgotten(
    bundles: map<string, nat>, tasks: map<nat, Task>, built: nat, stops: seq<nat>, lost: set<nat>)
  {
    forall b: nat :: Free(built, stops, lost, b) ==> Kept(bundles, tasks, b)
  }

  ghost predicate Kept(bundles: map<string, nat>, tasks: map<nat, Task>, b: nat) {
    (exists id :: Filed(bundles, id, b)) || exists t: nat :: Detached(tasks, t, b)
  }

  ghost predicate Inv(s: State) {
    Locks(s.tasks, s.loader, s.writer) && Apart(s.metas, s.bundles, s.tasks) &&
    OnePlace(s.bundles, s.tasks, s.built, s.stops, s.lost) &&
    NoneForgotten(s.bundles, s.tasks, s.built, s.stops, s.lost) && forall b :: b in s.lost ==> b < s.built
  }

  // -- Locks

  predicate LockMoves(before: Option<nat>, after: Option<nat>, t: nat) {
    after == before || ((before.None? || before == Some(t)) && (after.None? || after == Some(t)))
  }

  /** Whether call `t` stands where the locks say it does. */
  predicate LocksAt(s: State, t: nat) {
    if t in s.tasks then (s.tasks[t].Loading? <==> s.loader == Some(t)) && (Writes(s.tasks[t]) <==> s.writer == Some(t))
    else s.loader != Some(t) && s.writer != Some(t)
  }

  /** Only call `t` moved, and it took or released only its own locks. */
  ghost predicate Moved(s: State, u: State, t: nat) {
    (u.tasks == s.tasks && u.loader == s.loader && u.writer == s.writer) ||
    (t in u.tasks && u.tasks == s.tasks[t := u.tasks[t]] && LocksAt(u, t) &&
     LockMoves(s.loader, u.loader, t) && LockMoves(s.writer, u.writer, t))
  }

  lemma SetMoves(s: State, u: State, t: nat, task: Task)
    requires LocksAt(s, t) && u.tasks == s.tasks[t := task] && u.loader == s.loader && u.writer == s.writer
    requires if t in s.tasks then task.Loading? == s.tasks[t].Loading? && Writes(task) == Writes(s.tasks[t])
             else !task.Loading? && !Writes(task)
    ensures Moved(s, u, t)
  {
  }

  /** A section moves its own call along its phases and no other. */
  lemma OnlyTask(s: State, t: nat, c: Choice)
    requires t in s.tasks
    ensures Advance(s, t, c).tasks == s.tasks[t := Phase(s, t, c)]
  {
    hide Phase, MetaOf;
    match s.tasks[t]
    case Loading(_) =>
    case ToUnload(_, _) =>
    case Stopping(_, _, _) =>
    case SaveRead(_, _, _) =>
    case RemoveDropped(_) =>
    case _ =>
  }

  lemma LoaderMoves(s: State, t: nat, c: Choice)
    requires t in s.tasks && LocksAt(s, t)
    ensures var u := Advance(s, t, c);
      LockMoves(s.loader, u.loader, t) && (Phase(s, t, c).Loading? <==> u.loader == Some(t))
  {
    hide MetaOf, Archived, Writes;
    match s.tasks[t]
    case Loading(_) =>
    case ToSave(_, _) =>
    case SaveRead(_, _, _) =>
    case ToRemove(_) =>
    case RemoveDropped(_) =>
    case _ =>
  }

  lemma WriterMoves(s: State, t: nat, c: Choice)
    requires t in s.tasks && LocksAt(s, t)
    ensures var u := Advance(s, t, c);
      LockMoves(s.writer, u.writer, t) && (Writes(Phase(s, t, c)) <==> u.writer == Some(t))
  {
    hide MetaOf, Archived;
    match s.tasks[t]
    case Loading(_) =>
    case ToSave(_, _) =>
    case SaveRead(_, _, _) =>
    case ToRemove(_) =>
    case RemoveDropped(_) =>
    case _ =>
  }

  lemma AdvanceMoves(s: State, t: nat, c: Choice)
    requires t in s.tasks && LocksAt(s, t)
    ensures Moved(s, Advance(s, t, c), t)
  {
    hide Advance, Phase, LockMoves;
    OnlyTask(s, t, c);
    LoaderMoves(s, t, c);
    WriterMoves(s, t, c);
  }

  /** A call's step moves that call only, and takes or releases only its own locks. */
  lemma StepMovesOne(s: State, step: Step)
    requires !step.Restart? && LocksAt(s, step.call)
    ensures Moved(s, Next(s, step), step.call)
  {
    hide ValidId, MetaOf, Archived, Advance, Moved;
    var t, u := step.call, Next(s, step);
    if step.Go? && t in s.tasks {
      AdvanceMoves(s, t, step.choice);
    } else if step.Get? && u != s {
      GetMoves(s, t, step.id);
    } else if t in u.tasks && t !in s.tasks {
      SetMoves(s, u, t, u.tasks[t]);
    } else {
      QuietMoves(s, u, t);
    }
  }

  lemma QuietMoves(s: State, u: State, t: nat)
    requires u.tasks == s.tasks && u.loader == s.loader && u.writer == s.writer
    ensures Moved(s, u, t)
  {
  }

  lemma GetMoves(s: State, t: nat, id: string)
    requires LocksAt(s, t) && t !in s.tasks && s.loader.None?
    ensures Moved(s, SetTask(s, t, Loading(id)).(loader := Some(t)), t)
  {
  }

  lemma LocksKept(s: State, step: Step)
    requires Locks(s.tasks, s.loader, s.writer)
    ensures var u := Next(s, step); Locks(u.tasks, u.loader, u.writer)
  {
    hide Next;
    if step.Restart? {
      RestartTasks(s);
    } else {
      StepMovesOne(s, step);
    }
  }

  lemma RestartTasks(s: State)
    ensures var u := Next(s, Restart); u.tasks == map[] && u.loader == None && u.writer == None && u.bundles == map[]
  {
  }

  // -- Archived and loaded are apart

  lemma ApartQuiet(metas: map<string, Meta>, metas': map<string, Meta>, bundles: map<string, nat>,
                   tasks: map<nat, Task>, t: nat, task: Task)
    requires Apart(metas, bundles, tasks) && forall id :: ArchivedIn(metas', id) ==> ArchivedIn(metas, id)
    requires task.Loading? ==> task.id !in bundles && !ArchivedIn(metas, task.id)
    ensures Apart(metas', bundles, tasks[t := task])
  {
  }

  lemma ApartSame(metas: map<string, Meta>, metas': map<string, Meta>, bundles: map<string, nat>, tasks: map<nat, Task>)
    requires Apart(metas, bundles, tasks) && forall id :: ArchivedIn(metas', id) ==> ArchivedIn(metas, id)
    ensures Apart(metas', bundles, tasks)
  {
  }

  lemma ApartLoad(s: State, t: nat, id: string, c: Choice)
    requires Locks(s.tasks, s.loader, s.writer) && Apart(s.metas, s.bundles, s.tasks)
    requires t in s.tasks && s.tasks[t] == Loading(id)
    ensures var u := Advance(s, t, c); Apart(u.metas, u.bundles, u.tasks)
  {
  }

  lemma ApartUnload(s: State, t: nat, c: Choice)
    requires Locks(s.tasks, s.loader, s.writer) && Apart(s.metas, s.bundles, s.tasks)
    requires t in s.tasks && s.tasks[t].ToUnload?
    ensures var u := Advance(s, t, c); Apart(u.metas, u.bundles, u.tasks)
  {
    hide MetaOf;
  }

  /** Nothing was newly archived or filed, and call `t` is not loading anything it should not. */
  ghost predicate Plain(s: State, u: State, t: nat) {
    u.bundles == s.bundles && (forall id :: ArchivedIn(u.metas, id) ==> ArchivedIn(s.metas, id)) &&
    (u.tasks == s.tasks ||
     (t in u.tasks && u.tasks == s.tasks[t := u.tasks[t]] &&
      (u.tasks[t].Loading? ==> u.tasks[t].id !in s.bundles && !ArchivedIn(s.metas, u.tasks[t].id))))
  }

  lemma PlainSet(s: State, u: State, t: nat, task: Task)
    requires u.tasks == s.tasks[t := task] && !task.Loading? && u.bundles == s.bundles && u.metas == s.metas
    ensures Plain(s, u, t)
  {
  }

  lemma PlainMeta(s: State, u: State, t: nat, task: Task, id: string, m: Meta)
    requires u.tasks == s.tasks[t := task] && !task.Loading? && u.bundles == s.bundles && u.metas == s.metas[id := m]
    requires m.archived ==> ArchivedIn(s.metas, id)
    ensures Plain(s, u, t)
  {
  }

  lemma NewLoad(s: State, t: nat, c: Choice)
    requires t in s.tasks && !s.tasks[t].Loading?
    ensures !Phase(s, t, c).Loading?
  {
    hide Archived;
  }

  lemma PlainAdvance(s: State, t: nat, c: Choice)
    requires t in s.tasks && !s.tasks[t].Loading? && !s.tasks[t].ToUnload?
    ensures Plain(s, Advance(s, t, c), t)
  {
    hide Plain, Phase, Archived;
    var u, task := Advance(s, t, c), Phase(s, t, c);
    NewLoad(s, t, c);
    match s.tasks[t]
    case Counting(id, counts) => PlainMeta(s, u, t, task, id, u.metas[id]);
    case Restoring(id) => PlainMeta(s, u, t, task, id, u.metas[id]);
    case RemoveLocked(id) => PlainDrop(s, u, t, task, id);
    case Loading(_) =>
    case ToUnload(_, _) =>
    case _ => PlainSet(s, u, t, task);
  }

  lemma PlainDrop(s: State, u: State, t: nat, task: Task, id: string)
    requires u.tasks == s.tasks[t := task] && !task.Loading? && u.bundles == s.bundles && u.metas == s.metas - {id}
    ensures Plain(s, u, t)
  {
  }

  lemma PlainTouch(s: State, t: nat, id: string, now: int)
    ensures Plain(s, Touched(s, t, id, now), t)
  {
  }

  lemma PlainStart(s: State, step: Step)
    requires step.Get? || step.Archive? || step.Restore? || step.Delete?
    ensures Plain(s, Next(s, step), step.call)
  {
    hide ValidId, Advance;
  }

  lemma ApartKept(s: State, step: Step)
    requires Locks(s.tasks, s.loader, s.writer) && Apart(s.metas, s.bundles, s.tasks)
    ensures var u := Next(s, step); Apart(u.metas, u.bundles, u.tasks)
  {
    hide Locks, Apart, Advance, Touched, Mutable;
    var u := Next(s, step);
    if step.Restart? {
      RestartTasks(s);
      ApartNone(u.metas);
    } else if step.Go? && step.call in s.tasks {
      ApartAdvance(s, step.call, step.choice);
    } else {
      if step.Touch? && step.call !in s.tasks {
        PlainTouch(s, step.call, step.id, step.now);
      } else if !step.Go? && !step.Touch? {
        PlainStart(s, step);
      }
      if u != s {
        ApartPlain(s, u, step.call);
      }
    }
  }

  lemma ApartNone(metas: map<string, Meta>)
    ensures Apart(metas, map[], map[])
  {
  }

  lemma ApartPlain(s: State, u: State, t: nat)
    requires Apart(s.metas, s.bundles, s.tasks) && Plain(s, u, t)
    ensures Apart(u.metas, u.bundles, u.tasks)
  {
    hide ArchivedIn, Apart;
    if u.tasks == s.tasks {
      ApartSame(s.metas, u.metas, s.bundles, s.tasks);
    } else {
      ApartQuiet(s.metas, u.metas, s.bundles, s.tasks, t, u.tasks[t]);
    }
  }

  lemma ApartAdvance(s: State, t: nat, c: Choice)
    requires Locks(s.tasks, s.loader, s.writer) && Apart(s.metas, s.bundles, s.tasks) && t in s.tasks
    ensures var u := Advance(s, t, c); Apart(u.metas, u.bundles, u.tasks)
  {
    hide Locks, Apart, Advance, Plain, ArchivedIn;
    match s.tasks[t]
    case Loading(id) => ApartLoad(s, t, id, c);
    case ToUnload(_, _) => ApartUnload(s, t, c);
    case _ =>
      PlainAdvance(s, t, c);
      ApartPlain(s, Advance(s, t, c), t);
  }

  // -- Every bundle in one place

  /** Bundles, stops and detached bundles are as before. */
  ghost predicate Quiet(s: State, u: State) {
    u.bundles == s.bundles && u.built == s.built && u.stops == s.stops && u.lost == s.lost &&
    forall t: nat, b: nat :: Detached(u.tasks, t, b) <==> Detached(s.tasks, t, b)
  }

  ghost predicate Placed(s: State) {
    OnePlace(s.bundles, s.tasks, s.built, s.stops, s.lost) && NoneForgotten(s.bundles, s.tasks, s.built, s.stops, s.lost)
  }

  lemma QuietPlaced(s: State, u: State)
    requires Placed(s) && Quiet(s, u)
    ensures Placed(u)
  {
    hide Detached, Filed, Free, Once;
    forall b: nat | Free(u.built, u.stops, u.lost, b) ensures Kept(u.bundles, u.tasks, b) {
      assert Kept(s.bundles, s.tasks, b);
    }
  }

  lemma QuietSet(s: State, u: State, t: nat, task: Task)
    requires u.tasks == s.tasks[t := task] && !task.Stopping? && (t in s.tasks ==> !s.tasks[t].Stopping?)
    requires u.bundles == s.bundles && u.built == s.built && u.stops == s.stops && u.lost == s.lost
    ensures Quiet(s, u)
  {
  }

  lemma LoadPlaced(s: State, t: nat, id: string, c: Choice)
    requires Placed(s) && t in s.tasks && s.tasks[t] == Loading(id) && id !in s.bundles
    requires forall b :: b in s.lost ==> b < s.built
    ensures Placed(Advance(s, t, c))
  {
    hide Once;
    var u := Advance(s, t, c);
    forall v: nat, b: nat ensures Detached(u.tasks, v, b) <==> Detached(s.tasks, v, b) {
    }
    forall a, b: nat ensures Filed(u.bundles, a, b) <==> Filed(s.bundles, a, b) || (c.ok && a == id && b == s.built) {
    }
    forall b: nat | Free(u.built, u.stops, u.lost, b) ensures Kept(u.bundles, u.tasks, b) {
      if b == s.built {
        assert c.ok ==> Filed(u.bundles, id, b);
      } else {
        assert Kept(s.bundles, s.tasks, b);
        if a :| Filed(s.bundles, a, b) {
          assert Filed(u.bundles, a, b);
        } else {
          var v: nat :| Detached(s.tasks, v, b);
          assert Detached(u.tasks, v, b);
        }
      }
    }
  }

  lemma UnloadPlaced(s: State, t: nat, id: string, forDelete: bool, c: Choice)
    requires Placed(s) && t in s.tasks && s.tasks[t] == ToUnload(id, forDelete) && s.loader.None?
    ensures Placed(Advance(s, t, c))
  {
    hide Once, MetaOf;
    var u := Advance(s, t, c);
    forall v: nat, b: nat
      ensures Detached(u.tasks, v, b) <==> Detached(s.tasks, v, b) || (v == t && Filed(s.bundles, id, b))
    {
    }
    forall a, b: nat ensures Filed(u.bundles, a, b) <==> Filed(s.bundles, a, b) && a != id {
    }
    forall b: nat | Free(u.built, u.stops, u.lost, b) ensures Kept(u.bundles, u.tasks, b) {
      assert Kept(s.bundles, s.tasks, b);
      if a :| Filed(s.bundles, a, b) {
        assert if a == id then Detached(u.tasks, t, b) else Filed(u.bundles, a, b);
      } else {
        var v: nat :| Detached(s.tasks, v, b);
        assert Detached(u.tasks, v, b);
      }
    }
  }

  lemma StopPlaced(s: State, t: nat, id: string, forDelete: bool, bundle: Option<nat>, c: Choice)
    requires Placed(s) && t in s.tasks && s.tasks[t] == Stopping(id, forDelete, bundle)
    ensures Placed(Advance(s, t, c))
  {
    var u := Advance(s, t, c);
    assert bundle.Some? ==> Detached(s.tasks, t, bundle.value);
    forall v: nat, b: nat | Detached(u.tasks, v, b) ensures Detached(s.tasks, v, b) && v != t {
    }
    forall b: nat | Free(u.built, u.stops, u.lost, b) ensures Kept(u.bundles, u.tasks, b) {
      assert Kept(s.bundles, s.tasks, b);
      if v: nat :| Detached(s.tasks, v, b) {
        assert v != t && Detached(u.tasks, v, b);
      }
    }
  }

  lemma NewStop(s: State, t: nat, c: Choice)
    requires t in s.tasks && !s.tasks[t].Stopping? && !s.tasks[t].ToUnload?
    ensures !Phase(s, t, c).Stopping?
  {
    hide Archived;
  }

  lemma AdvancePlaced(s: State, t: nat, c: Choice)
    requires Placed(s) && Apart(s.metas, s.bundles, s.tasks) && t in s.tasks && forall b :: b in s.lost ==> b < s.built
    ensures Placed(Advance(s, t, c))
  {
    hide Placed, Phase, Archived, ArchivedIn, MetaOf;
    var u, task := Advance(s, t, c), Phase(s, t, c);
    if s.tasks[t].Loading? {
      LoadPlaced(s, t, s.tasks[t].id, c);
    } else if s.tasks[t].ToUnload? && s.loader.None? {
      UnloadPlaced(s, t, s.tasks[t].id, s.tasks[t].forDelete, c);
    } else if s.tasks[t].Stopping? {
      StopPlaced(s, t, s.tasks[t].id, s.tasks[t].forDelete, s.tasks[t].bundle, c);
    } else {
      if s.tasks[t].ToUnload? {
        UnloadWaits(s, t, c);
      } else {
        NewStop(s, t, c);
      }
      QuietSet(s, u, t, task);
      QuietPlaced(s, u);
    }
  }

  lemma UnloadWaits(s: State, t: nat, c: Choice)
    requires t in s.tasks && s.tasks[t].ToUnload? && s.loader.Some?
    ensures Phase(s, t, c) == s.tasks[t]
  {
  }

  lemma StartPlaced(s: State, step: Step)
    requires Placed(s) && !step.Go? && !step.Restart?
    ensures Placed(Next(s, step))
  {
    hide Placed, Advance, ValidId, MetaOf, Archived;
    var u, t := Next(s, step), step.call;
    if t !in s.tasks {
      if u.tasks == s.tasks {
        QuietAlike(s, u);
      } else {
        QuietSet(s, u, t, u.tasks[t]);
      }
      QuietPlaced(s, u);
    }
  }

  lemma QuietAlike(s: State, u: State)
    requires u.tasks == s.tasks && u.bundles == s.bundles && u.built == s.built && u.stops == s.stops && u.lost == s.lost
    ensures Quiet(s, u)
  {
  }

  lemma RestartPlaced(s: State)
    requires Placed(s)
    ensures Placed(Next(s, Restart))
  {
    var u := Next(s, Restart);
    assert forall b :: b in u.stops ==> b !in u.lost;
  }

  lemma LostKept(s: State, step: Step)
    requires forall b :: b in s.lost ==> b < s.built
    ensures var u := Next(s, step); forall b :: b in u.lost ==> b < u.built
  {
    hide ValidId, MetaOf, Archived;
  }

  /** Every critical section, in any interleaving, keeps the invariant. */
  lemma StepKeeps(s: State, step: Step)
    requires Inv(s)
    ensures Inv(Next(s, step))
  {
    hide Next, Locks, Apart, OnePlace, NoneForgotten;
    LocksKept(s, step);
    ApartKept(s, step);
    LostKept(s, step);
    PlacedKept(s, step);
  }

  lemma PlacedKept(s: State, step: Step)
    requires Placed(s) && Apart(s.metas, s.bundles, s.tasks) && forall b :: b in s.lost ==> b < s.built
    ensures Placed(Next(s, step))
  {
    hide Placed, Advance, Apart;
    if step.Restart? {
      RestartPlaced(s);
    } else if step.Go? {
      if step.call in s.tasks {
        AdvancePlaced(s, step.call, step.choice);
      }
    } else {
      StartPlaced(s, step);
    }
  }

  // ---------------------------------------------------------------- runs

  function Run(s: State, steps: seq<Step>): State
    decreases steps
  {
    if steps == [] then s else Run(Next(s, steps[0]), steps[1..])
  }

  function Start(defaultId: string): State {
    State(defaultId, map[], map[], map[], map[], None, None, 0, [], {})
  }

  lemma {:induction false} RunKeeps(s: State, steps: seq<Step>)
    requires Inv(s)
    ensures Inv(Run(s, steps))
    decreases steps
  {
    hide Inv, Next;
    if steps != [] {
      StepKeeps(s, steps[0]);
      RunKeeps(Next(s, steps[0]), steps[1..]);
    }
  }

  lemma {:induction false} OnceCounts(stops: seq<nat>, b: nat)
    requires Once(stops)
    ensures multiset(stops)[b] == if b in stops then 1 else 0
  {
    if stops != [] {
      var m := |stops| - 1;
      OnceCounts(stops[..m], b);
      assert stops == stops[..m] + [stops[m]];
    }
  }

  /**
   In every reachable state no account is both archived and loaded, no bundle was stopped twice, and every bundle
   built in this process that is neither in service nor being stopped was stopped exactly once.
   */
  lemma StoppedExactlyOnce(defaultId: string, steps: seq<Step>, id: string, b: nat)
    ensures var s := Run(Start(defaultId), steps); !(Archived(s, id) && id in s.bundles)
    ensures multiset(Run(Start(defaultId), steps).stops)[b] <= 1
    ensures var s := Run(Start(defaultId), steps);
      b < s.built && b !in s.lost && !Kept(s.bundles, s.tasks, b) ==> multiset(s.stops)[b] == 1
  {
    hide Next, Kept, Locks;
    var s := Run(Start(defaultId), steps);
    StartOk(defaultId);
    RunKeeps(Start(defaultId), steps);
    OnceCounts(s.stops, b);
    assert id in s.bundles ==> !ArchivedIn(s.metas, id);
  }

  lemma StartOk(defaultId: string)
    ensures Inv(Start(defaultId))
  {
  }

  // ---------------------------------------------------------------- an archived account stays archived

  /** A restore before it clears the mark, or a deletion before it removed the files. */
  predicate Disturbs(task: Task, id: string) {
    match task
    case Restoring(a) => a == id
    case ToUnload(a, forDelete) => a == id && forDelete
    case Stopping(a, forDelete, _) => a == id && forDelete
    case ToRemove(a) => a == id
    case RemoveLocked(a) => a == id
    case RemoveDropped(a) => a == id
    case _ => false
  }

  predicate Calm(s: State, id: string) { forall t :: t in s.tasks ==> !Disturbs(s.tasks[t], id) }

  predicate Undisturbing(step: Step, id: string) {
    (step.Restore? ==> step.id != id) && (step.Delete? ==> step.id != id)
  }

  predicate Marked(s: State, id: string) { Archived(s, id) && Calm(s, id) }

  /** A save that has read this account's metadata read the mark. */
  predicate ReadsMark(s: State, id: string) {
    forall t :: t in s.tasks ==> ReadMark(s.tasks[t], id)
  }

  /** Marked in memory and on disk, and no writer can undo it. */
  predicate Settled(s: State, id: string) {
    Marked(s, id) && id in s.disk && s.disk[id].archived && ReadsMark(s, id)
  }

  lemma MarkedStays(s: State, step: Step, id: string)
    requires Marked(s, id) && Undisturbing(step, id) && !step.Restart?
    ensures Marked(Next(s, step), id)
  {
    hide ValidId, Advance;
    if step.Go? && step.call in s.tasks {
      MarkedAdvance(s, step.call, step.choice, id);
    }
  }

  lemma MarkedAdvance(s: State, t: nat, c: Choice, id: string)
    requires Marked(s, id) && t in s.tasks
    ensures Marked(Advance(s, t, c), id)
  {
    hide Phase, Disturbs;
    CalmAdvance(s, t, c, id);
    ArchivedAdvance(s, t, c, id);
  }

  lemma ArchivedAdvance(s: State, t: nat, c: Choice, id: string)
    requires Archived(s, id) && t in s.tasks && !Disturbs(s.tasks[t], id)
    ensures Archived(Advance(s, t, c), id)
  {
    hide Phase;
  }

  lemma DisturbsOnly(s: State, t: nat, c: Choice, id: string)
    requires t in s.tasks && !Disturbs(s.tasks[t], id)
    ensures !Disturbs(Phase(s, t, c), id)
  {
    hide Archived;
  }

  lemma CalmAdvance(s: State, t: nat, c: Choice, id: string)
    requires Calm(s, id) && t in s.tasks
    ensures Calm(Advance(s, t, c), id)
  {
    hide Advance, Disturbs, Phase;
    OnlyTask(s, t, c);
    DisturbsOnly(s, t, c, id);
  }

  lemma ReadsMarkStays(s: State, step: Step, id: string)
    requires Marked(s, id) && ReadsMark(s, id)
    ensures ReadsMark(Next(s, step), id)
  {
    hide ValidId, Calm, MetaOf, Advance;
    if step.Go? && step.call in s.tasks {
      ReadsMarkAdvance(s, step.call, step.choice, id);
    }
  }

  predicate ReadMark(task: Task, id: string) {
    task.SaveRead? && task.id == id ==> task.snapshot.Some? && task.snapshot.value.archived
  }

  lemma NewRead(s: State, t: nat, c: Choice, id: string)
    requires Archived(s, id) && t in s.tasks && ReadMark(s.tasks[t], id)
    ensures ReadMark(Phase(s, t, c), id)
  {
  }

  lemma ReadsMarkAdvance(s: State, t: nat, c: Choice, id: string)
    requires Archived(s, id) && ReadsMark(s, id) && t in s.tasks
    ensures ReadsMark(Advance(s, t, c), id)
  {
    hide Advance, ReadMark, Phase;
    OnlyTask(s, t, c);
    NewRead(s, t, c, id);
  }

  /** The saved mark survives a step, a crash and restart included. */
  lemma SettledStays(s: State, step: Step, id: string)
    requires Settled(s, id) && Undisturbing(step, id)
    ensures Settled(Next(s, step), id)
  {
    hide Calm, ReadsMark, Advance;
    if step.Restart? {
      SettledRestart(s, id);
    } else {
      MarkedStays(s, step, id);
      ReadsMarkStays(s, step, id);
      if step.Go? && step.call in s.tasks {
        DiskAdvance(s, step.call, step.choice, id);
      }
    }
  }

  lemma SettledRestart(s: State, id: string)
    requires id in s.disk && s.disk[id].archived
    ensures Settled(Next(s, Restart), id)
  {
  }

  lemma DiskAdvance(s: State, t: nat, c: Choice, id: string)
    requires Settled(s, id) && t in s.tasks
    ensures var u := Advance(s, t, c); id in u.disk && u.disk[id].archived
  {
    hide MetaOf, Archived, Phase;
    assert !Disturbs(s.tasks[t], id);
  }

  lemma {:induction false} SettledForever(s: State, steps: seq<Step>, id: string)
    requires Settled(s, id) && forall i :: 0 <= i < |steps| ==> Undisturbing(steps[i], id)
    ensures Settled(Run(s, steps), id)
    decreases steps
  {
    hide Settled, Next, Undisturbing;
    if steps != [] {
      SettledStays(s, steps[0], id);
      SettledForever(Next(s, steps[0]), steps[1..], id);
    }
  }

  /** Call `t` set the mark of `id`; once it has returned successfully the mark is saved for good. */
  predicate Archiving(s: State, id: string, t: nat) {
    Marked(s, id) && t in s.tasks && s.tasks[t].id == id &&
    match s.tasks[t]
    case Stopping(_, forDelete, _) => !forDelete
    case Counting(_, _) => true
    case ToSave(_, caller) => caller == Archiver
    case SaveLocked(_, caller) => caller == Archiver
    case SaveRead(_, caller, snapshot) => caller == Archiver && snapshot.Some? && snapshot.value.archived
    case Returned(_, caller, ok) => caller == Archiver && (ok ==> Settled(s, id))
    case _ => false
  }

  lemma MarkSet(s: State, t: nat, id: string, c: Choice)
    requires t in s.tasks && s.tasks[t] == ToUnload(id, false) && s.loader.None? && Calm(s, id)
    ensures Archiving(Advance(s, t, c), id, t)
  {
  }

  lemma ArchivingStays(s: State, step: Step, id: string, t: nat)
    requires Inv(s) && Archiving(s, id, t) && Undisturbing(step, id) && !step.Restart?
    ensures Archiving(Next(s, step), id, t)
  {
    hide Inv, Marked, Settled, Next;
    MarkedStays(s, step, id);
    if s.tasks[t].Returned? {
      if s.tasks[t].ok {
        SettledStays(s, step, id);
      }
      OthersStay(s, step, t);
    } else if step.Go? && step.call == t {
      assert Next(s, step) == Advance(s, t, step.choice) by { GoAdvances(s, t, step.choice); }
      OwnStep(s, step.choice, id, t);
    } else {
      OthersStay(s, step, t);
    }
  }

  lemma OthersStay(s: State, step: Step, t: nat)
    requires t in s.tasks && !step.Restart? && (step.Go? && step.call == t ==> s.tasks[t].Returned?)
    ensures t in Next(s, step).tasks && Next(s, step).tasks[t] == s.tasks[t]
  {
    hide ValidId, MetaOf, Archived, Advance, Phase;
    if step.Go? && step.call in s.tasks {
      OnlyTask(s, step.call, step.choice);
      if step.call == t {
        ReturnedRests(s, t, step.choice);
      }
    }
  }

  lemma ReturnedRests(s: State, t: nat, c: Choice)
    requires t in s.tasks && s.tasks[t].Returned?
    ensures Phase(s, t, c) == s.tasks[t]
  {
  }

  lemma GoAdvances(s: State, t: nat, c: Choice)
    requires t in s.tasks
    ensures Next(s, Go(t, c)) == Advance(s, t, c)
  {
    hide Advance;
  }

  lemma OwnStep(s: State, c: Choice, id: string, t: nat)
    requires Inv(s) && Archiving(s, id, t) && !s.tasks[t].Returned? && Marked(Advance(s, t, c), id)
    ensures Archiving(Next(s, Go(t, c)), id, t)
  {
    hide Inv, Marked, MetaOf, ReadsMark;
    if s.tasks[t].SaveRead? {
      OnlyReader(s, t, c, id);
    }
    assert Marked(s, id) ==> Archived(s, id) by { MarkedArchived(s, id); }
  }

  lemma MarkedArchived(s: State, id: string)
    requires Marked(s, id)
    ensures Archived(s, id)
  {
  }

  /** While one call saves, no other has read anything. */
  lemma OnlyReader(s: State, t: nat, c: Choice, id: string)
    requires Inv(s) && t in s.tasks && s.tasks[t].SaveRead?
    ensures ReadsMark(Advance(s, t, c), id)
  {
    hide Apart, OnePlace, NoneForgotten;
    forall v | v in s.tasks && v != t ensures !s.tasks[v].SaveRead? {
    }
  }

  /**
   From the moment an Archive call sets the mark: if no restore or deletion of the account is under way or starts, the
   mark stays, and once the call has returned successfully the saved metadata is archived for good, whatever the
   activity writers that were scheduled before or after it do.
   */
  lemma {:induction false} ArchiveHolds(s: State, steps: seq<Step>, id: string, t: nat)
    requires Inv(s) && Archiving(s, id, t)
    requires forall i :: 0 <= i < |steps| ==> Undisturbing(steps[i], id) && !steps[i].Restart?
    ensures Archiving(Run(s, steps), id, t)
    ensures var u := Run(s, steps); u.tasks[t] == Returned(id, Archiver, true) ==> u.disk[id].archived
    decreases steps
  {
    hide Inv, Archiving, Next, Undisturbing;
    if steps == [] {
      ArchivingSaved(s, id, t);
    } else {
      StepKeeps(s, steps[0]);
      ArchivingStays(s, steps[0], id, t);
      ArchiveHolds(Next(s, steps[0]), steps[1..], id, t);
    }
  }

  lemma ArchivingSaved(s: State, id: string, t: nat)
    requires Archiving(s, id, t)
    ensures t in s.tasks && (s.tasks[t] == Returned(id, Archiver, true) ==> id in s.disk && s.disk[id].archived)
  {
  }

  // -- A second Archive call

  predicate MarkSaved(s: State, id: string) { id in s.disk && s.disk[id].archived }

  /** An Archive call that finds the mark set returns without an error and touches nothing else. */
  lemma MarkFound(s: State, t: nat, id: string, c: Choice)
    requires t in s.tasks && s.tasks[t] == ArchiveCheck(id) && Archived(s, id)
    ensures Next(s, Go(t, c)) == SetTask(s, t, Returned(id, Archiver, true))
  {
  }

  lemma {:induction false} ReturnedForever(s: State, steps: seq<Step>, t: nat)
    requires t in s.tasks && s.tasks[t].Returned? && forall i :: 0 <= i < |steps| ==> !steps[i].Restart?
    ensures var u := Run(s, steps); t in u.tasks && u.tasks[t] == s.tasks[t]
    decreases steps
  {
    hide Next;
    if steps != [] {
      OthersStay(s, steps[0], t);
      ReturnedForever(Next(s, steps[0]), steps[1..], t);
    }
  }

  /**
   A call that finds the mark of another Archive call returns successfully with the mark saved exactly if it was saved
   before.  From then on, in every run without restore, deletion or restart, it has returned; the mark is there; and the
   mark is saved for good once the call that set it has returned successfully.
   */
  lemma SecondArchive(s: State, first: nat, second: nat, id: string, c: Choice, steps: seq<Step>)
    requires Inv(s) && Archiving(s, id, first) && second in s.tasks && s.tasks[second] == ArchiveCheck(id)
    requires forall i :: 0 <= i < |steps| ==> Undisturbing(steps[i], id) && !steps[i].Restart?
    ensures var u := Next(s, Go(second, c));
      u.tasks[second] == Returned(id, Archiver, true) && (MarkSaved(u, id) <==> MarkSaved(s, id))
    ensures var u := Run(Next(s, Go(second, c)), steps);
      second in u.tasks && u.tasks[second] == Returned(id, Archiver, true) && Archiving(u, id, first) &&
      (u.tasks[first] == Returned(id, Archiver, true) ==> Settled(u, id))
  {
    hide Inv, Next, Settled, Undisturbing;
    var u := Next(s, Go(second, c));
    ArchivingMarked(s, id, first);
    MarkFound(s, second, id, c);
    hide Archiving;
    StepKeeps(s, Go(second, c));
    UndisturbingGo(second, c, id);
    ArchivingStays(s, Go(second, c), id, first);
    ArchiveHolds(u, steps, id, first);
    ReturnedForever(u, steps, second);
    ArchivingSettled(Run(u, steps), id, first);
  }

  lemma UndisturbingGo(t: nat, c: Choice, id: string)
    ensures Undisturbing(Go(t, c), id)
  {
  }

  lemma ArchivingMarked(s: State, id: string, t: nat)
    requires Archiving(s, id, t)
    ensures Archived(s, id)
  {
  }

  lemma ArchivingSettled(s: State, id: string, t: nat)
    requires Archiving(s, id, t)
    ensures t in s.tasks && (s.tasks[t] == Returned(id, Archiver, true) ==> Settled(s, id))
  {
  }

  /** Two Archive calls of a known account, the second one while the first is still stopping its services. */
  function Overtaken(id: string, c: Choice): seq<Step> {
    [Touch(0, id, 0), Archive(1, id, false), Go(1, c), Go(1, c), Archive(2, id, false), Go(2, c)]
  }

  lemma RunSix(s: State, a: Step, b: Step, c: Step, d: Step, e: Step, f: Step)
    ensures Run(s, [a, b, c, d, e, f]) == Next(Next(Next(Next(Next(Next(s, a), b), c), d), e), f)
  {
    hide Next;
    RunOne(s, a, [b, c, d, e, f]);
    RunOne(Next(s, a), b, [c, d, e, f]);
    RunOne(Next(Next(s, a), b), c, [d, e, f]);
    RunOne(Next(Next(Next(s, a), b), c), d, [e, f]);
    RunOne(Next(Next(Next(Next(s, a), b), c), d), e, [f]);
    RunOne(Next(Next(Next(Next(Next(s, a), b), c), d), e), f, []);
  }

  lemma RunOne(s: State, step: Step, rest: seq<Step>)
    ensures Run(s, [step] + rest) == Run(Next(s, step), rest)
  {
    hide Next;
    assert ([step] + rest)[1..] == rest;
  }

  /** Such a run: the second call has returned successfully, nothing is saved, and a crash brings the account back. */
  lemma SecondArchiveSavesNothing(defaultId: string, id: string, c: Choice)
    requires ValidId(id) && id != defaultId
    ensures var s := Run(Start(defaultId), Overtaken(id, c));
      2 in s.tasks && s.tasks[2] == Returned(id, Archiver, true) && Archived(s, id) && !MarkSaved(s, id) &&
      !Archived(Next(s, Restart), id)
  {
    hide ValidId;
    var s0 := Start(defaultId);
    RunSix(s0, Touch(0, id, 0), Archive(1, id, false), Go(1, c), Go(1, c), Archive(2, id, false), Go(2, c));
    var s1 := Next(s0, Touch(0, id, 0));
    assert s1.tasks == map[0 := ToSave(id, Activity)] && id in s1.metas && !s1.metas[id].archived;
    var s2 := Next(s1, Archive(1, id, false));
    assert s2 == SetTask(s1, 1, ArchiveCheck(id));
    var s3 := Next(s2, Go(1, c));
    assert s3 == SetTask(s2, 1, ToUnload(id, false));
    var s4 := Next(s3, Go(1, c));
    assert Archived(s4, id) && s4.disk == map[] && 2 !in s4.tasks;
    var s5 := Next(s4, Archive(2, id, false));
    assert s5 == SetTask(s4, 2, ArchiveCheck(id));
    MarkFound(s5, 2, id, c);
  }

  // ---------------------------------------------------------------- the registry

  /** HandlerRegistry.  Each method is one critical section of the call numbered `t`. */
  class Registry {
    const defaultId: string
    var metas: map<string, Meta>
    var disk: map<string, Meta>
    var bundles: map<string, nat>
    var built: nat
    var tasks: map<nat, Task>
    var loader: Option<nat>
    var writer: Option<nat>
    ghost var stops: seq<nat>
    ghost var lost: set<nat>

    ghost function Now(): State
      reads this
    {
      State(defaultId, metas, disk, bundles, tasks, loader, writer, built, stops, lost)
    }

    ghost predicate Valid()
      reads this
    {
      Inv(Now())
    }

    constructor (defaultId: string)
      ensures Valid() && Now() == Start(defaultId)
    {
      this.defaultId := defaultId;
      metas, disk, bundles, tasks := map[], map[], map[], map[];
      loader, writer, built, stops, lost := None, None, 0, [], {};
    }

    method MetaLocked(id: string) returns (m: Meta)
      ensures m == MetaOf(Now(), id)
    {
      return if id in metas then metas[id] else NEW_META;
    }

    /** get and PreInit up to the factory call: false when nothing is to be built. */
    method Get(t: nat, id: string) returns (building: bool)
      requires Valid() && t !in tasks
      modifies this`tasks, this`loader
      ensures Valid() && Now() == Next(old(Now()), Step.Get(t, id))
      ensures building ==> id !in bundles && !(id in metas && metas[id].archived)
    {
      hide Inv;
      StepKeeps(Now(), Step.Get(t, id));
      if loader.Some? || id in bundles || (id in metas && metas[id].archived) {
        return false;
      }
      tasks, loader := tasks[t := Loading(id)], Some(t);
      return true;
    }

    method FinishLoad(t: nat, id: string, c: Choice)
      requires Valid() && t in tasks && tasks[t] == Loading(id)
      modifies this`tasks, this`loader, this`bundles, this`built
      ensures Valid() && Now() == Next(old(Now()), Go(t, c))
    {
      hide Inv;
      StepKeeps(Now(), Go(t, c));
      if c.ok {
        bundles, built := bundles[id := built], built + 1;
      }
      tasks, loader := tasks[t := Returned(id, Getter, c.ok)], None;
    }

    method Touch(t: nat, id: string, now: int)
      requires Valid() && t !in tasks
      modifies this`metas, this`tasks
      ensures Valid() && Now() == Next(old(Now()), Step.Touch(t, id, now))
    {
      hide Inv;
      StepKeeps(Now(), Step.Touch(t, id, now));
      var m := MetaLocked(id);
      m := m.(active := Some(now));
      var persist := now - m.persisted >= PERSIST_INTERVAL;
      if persist {
        m := m.(persisted := now);
      }
      metas := metas[id := m];
      if persist {
        tasks := tasks[t := ToSave(id, Activity)];
      }
    }

    /** unload's critical section; false while the registry lock is held by a load. */
    method Unload(t: nat, id: string, forDelete: bool, c: Choice) returns (done: bool)
      requires Valid() && t in tasks && tasks[t] == ToUnload(id, forDelete)
      modifies this`metas, this`bundles, this`tasks
      ensures Valid() && Now() == Next(old(Now()), Go(t, c))
      ensures done ==> id !in bundles && Archived(Now(), id)
    {
      hide Inv;
      StepKeeps(Now(), Go(t, c));
      if loader.Some? {
        assert tasks == tasks[t := tasks[t]];
        return false;
      }
      var m := MetaLocked(id);
      metas := metas[id := if forDelete then m.(archived := true) else m.(archived := true, archivedAt := Some(c.now))];
      tasks := tasks[t := Stopping(id, forDelete, if id in bundles then Some(bundles[id]) else None)];
      bundles := bundles - {id};
      return true;
    }

    method Stop(t: nat, id: string, forDelete: bool, bundle: Option<nat>, c: Choice)
      requires Valid() && t in tasks && tasks[t] == Stopping(id, forDelete, bundle)
      modifies this`stops, this`tasks
      ensures Valid() && Now() == Next(old(Now()), Go(t, c))
      ensures bundle.Some? ==> bundle.value !in old(stops)
    {
      hide Locks, Apart, NoneForgotten;
      assert bundle.Some? ==> Detached(tasks, t, bundle.value);
      StepKeeps(Now(), Go(t, c));
      var counts := None;
      if bundle.Some? {
        counts := Some(c.counts);
        stops := stops + [bundle.value];
      }
      tasks := tasks[t := if forDelete then ToRemove(id) else Counting(id, counts)];
    }

    method SetResources(t: nat, id: string, counts: Option<Counts>, c: Choice)
      requires Valid() && t in tasks && tasks[t] == Counting(id, counts)
      modifies this`metas, this`tasks
      ensures Valid() && Now() == Next(old(Now()), Go(t, c))
    {
      hide Inv;
      StepKeeps(Now(), Go(t, c));
      var m := MetaLocked(id);
      if counts.Some? {
        m := m.(resources := counts);
      }
      metas, tasks := metas[id := m], tasks[t := ToSave(id, Archiver)];
    }

    method Unmark(t: nat, id: string, c: Choice)
      requires Valid() && t in tasks && tasks[t] == Restoring(id)
      modifies this`metas, this`tasks
      ensures Valid() && Now() == Next(old(Now()), Go(t, c))
    {
      hide Inv;
      StepKeeps(Now(), Go(t, c));
      var m := MetaLocked(id);
      metas := metas[id := m.(archived := false, archivedAt := None, active := Some(c.now))];
      tasks := tasks[t := ToSave(id, Restorer)];
    }

    /** writeMeta, from the write lock on: read the current metadata, then the file. */
    method ReadForSave(t: nat, id: string, caller: Caller, c: Choice)
      requires Valid() && t in tasks && tasks[t] == SaveLocked(id, caller)
      modifies this`tasks
      ensures Valid() && Now() == Next(old(Now()), Go(t, c))
    {
      hide Inv;
      StepKeeps(Now(), Go(t, c));
      tasks := tasks[t := SaveRead(id, caller, if id in metas then Some(metas[id]) else None)];
    }

    method WriteFile(t: nat, id: string, caller: Caller, snapshot: Option<Meta>, c: Choice)
      requires Valid() && t in tasks && tasks[t] == SaveRead(id, caller, snapshot)
      modifies this`disk, this`writer, this`tasks
      ensures Valid() && Now() == Next(old(Now()), Go(t, c))
    {
      hide Inv;
      StepKeeps(Now(), Go(t, c));
      if snapshot.Some? && c.ok {
        disk := disk[id := snapshot.value];
      }
      writer, tasks := None, tasks[t := Returned(id, caller, snapshot.None? || c.ok)];
    }

    method DropMeta(t: nat, id: string, c: Choice)
      requires Valid() && t in tasks && tasks[t] == RemoveLocked(id)
      modifies this`metas, this`tasks
      ensures Valid() && Now() == Next(old(Now()), Go(t, c))
    {
      hide Inv;
      StepKeeps(Now(), Go(t, c));
      metas, tasks := metas - {id}, tasks[t := RemoveDropped(id)];
    }

    method RemoveFiles(t: nat, id: string, c: Choice)
      requires Valid() && t in tasks && tasks[t] == RemoveDropped(id)
      modifies this`disk, this`writer, this`tasks
      ensures Valid() && Now() == Next(old(Now()), Go(t, c))
    {
      hide Inv;
      StepKeeps(Now(), Go(t, c));
      if c.ok {
        disk := disk - {id};
      }
      writer, tasks := None, tasks[t := Returned(id, Deleter, c.ok)];
    }
  }
}
