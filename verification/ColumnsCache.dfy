/** The shared column cache as a protocol: commits, their later recording, refreshes and readers, in any
  * interleaving the two locks allow.
  *
  * A commit and the recording of what it touched are separate steps, and so are taking the pending delta,
  * each chunk a patch reads, and installing a build. The write guard on the columns makes refreshes
  * exclusive, which is what `phase` says.
  */
module ColumnsCache {
  import opened Json
  import opened Tables

  /** What one commit changed, and whether it is recorded as a full refresh: every deletion is. */
  datatype Commit = Commit(ids: set<EntityId>, full: bool)

  datatype Phase =
    | Free                              // nobody holds the columns for writing
    | Patching(rest: seq<EntityId>)     // a delta was taken and these ids are still to be re-read
    | Building                          // a delta was taken and the columns are to be replaced
    | Built(view: View, version: nat)   // a scan or a loaded file, not installed yet
    | Failed                            // an absorb failed, and the full refresh is not recorded yet

  datatype File = File(stamp: nat, view: View)

  datatype State = State(
    hist: seq<Snapshot>,                // every committed state of storage, the last one current
    commits: seq<Commit>,               // commit `c` turned state `c` into state `c + 1`
    unrecorded: set<(nat, EntityId)>,   // what commits touched and have not recorded
    touched: seq<EntityId>,
    forceFull: bool,
    columns: Option<View>,
    phase: Phase,
    stamp: Option<nat>,                 // the generation a save captured
    file: Option<File>,
    asOf: EntityId -> nat               // history only: the state each row was last read from
  )

  function Version(s: State): nat {
    |s.commits|
  }

  ghost predicate WellFormed(s: State) {
    && |s.hist| == |s.commits| + 1
    && (forall c :: 0 <= c < |s.commits| ==> Leads(s.hist[c], s.commits[c], s.hist[c + 1]))
    && (forall p :: p in s.unrecorded ==> p.0 < |s.commits| && p.1 in s.commits[p.0].ids)
  }

  /** A commit changes the ids it lists and no other, and deletes only when it is a full one. */
  ghost predicate Leads(before: Snapshot, c: Commit, after: Snapshot) {
    forall id :: SameIn(before, after, id) || (id in c.ids && (id in before && id !in after ==> c.full))
  }

  ghost predicate SameIn(a: Snapshot, b: Snapshot, id: EntityId) {
    (id in a <==> id in b) && (id in a && id in b ==> a[id] == b[id])
  }

  ghost function Current(s: State): Snapshot
    requires WellFormed(s)
  {
    s.hist[Version(s)]
  }

  function Initial(store: Snapshot): State {
    State([store], [], {}, [], false, None, Free, None, None, _ => 0)
  }

  // ---------------------------------------------------------------- the steps

  datatype Action =
    | Write(changes: map<EntityId, Option<Value>>, full: bool)
    | RecordTouched(c: nat, ids: seq<EntityId>)
    | RecordFull(c: nat)
    | Take
    | PatchChunk
    | PatchDone
    | Fail
    | Scan
    | Load
    | Install
    | Drop
    | Recover
    | Capture
    | Save
    | Restart

  ghost function Changed(store: Snapshot, changes: map<EntityId, Option<Value>>): Snapshot {
    map id | id in store.Keys + changes.Keys && (id in changes ==> changes[id].Some?) ::
      if id in changes then changes[id].value else store[id]
  }

  /** Nothing is pending and nobody is refreshing: what a reader checks before it uses the columns. */
  predicate CanServe(s: State) {
    s.phase == Free && s.columns.Some? && s.touched == [] && !s.forceFull
  }

  ghost predicate Enabled(s: State, a: Action) {
    match a
    case Write(changes, full) => (exists id :: id in changes && changes[id] == None) ==> full
    case RecordTouched(c, ids) =>
      c < Version(s) && !s.commits[c].full && forall id :: id in ids ==> (c, id) in s.unrecorded
    case RecordFull(c) => c < Version(s) && s.commits[c].full
    case Take => s.phase == Free
    case PatchChunk => s.phase.Patching? && s.phase.rest != [] && s.columns.Some?
    case PatchDone => s.phase == Patching([])
    case Fail => s.phase.Patching? || s.phase == Building
    case Scan => s.phase == Building
    case Load => s.phase == Building && s.file.Some? && s.file.value.stamp == Version(s)
    case Install => s.phase.Built?
    case Drop => s.phase == Building
    case Recover => s.phase == Failed
    // The write lock is held from before a commit until after its recording, and by a capture.
    case Capture => s.unrecorded == {}
    case Save => CanServe(s) && s.stamp.Some?
    case Restart => true
  }

  /** The ids of the next chunk. */
  function NextChunk(s: State): seq<EntityId>
    requires s.phase.Patching?
  {
    s.phase.rest[..ChunkLen(s.phase.rest, PATCH_CHUNK)]
  }

  ghost function Step(s: State, a: Action): State
    requires WellFormed(s) && Enabled(s, a)
  {
    match a
    case Write(changes, full) =>
      s.(hist := s.hist + [Changed(Current(s), changes)], commits := s.commits + [Commit(changes.Keys, full)],
         unrecorded := s.unrecorded + (set id | id in changes :: (Version(s), id)))
    case RecordTouched(c, ids) =>
      s.(unrecorded := s.unrecorded - (set id | id in ids :: (c, id)),
         touched := if s.forceFull then s.touched else s.touched + ids)
    case RecordFull(c) =>
      s.(unrecorded := (set p | p in s.unrecorded && p.0 != c), touched := [], forceFull := true)
    case Take =>
      s.(touched := [], forceFull := false,
         phase := if s.columns.Some? && !s.forceFull then Patching(s.touched) else Building)
    case PatchChunk =>
      var chunk := NextChunk(s);
      s.(columns := Some(ApplyIds(s.columns.value, Current(s), chunk)),
         phase := Patching(s.phase.rest[|chunk|..]),
         asOf := RereadAsOf(s, chunk))
    case PatchDone => s.(phase := Free)
    case Fail => s.(phase := Failed)
    case Scan => s.(phase := Built(CleanAll(Current(s)), Version(s)))
    case Load => s.(phase := Built(s.file.value.view, Version(s)))
    case Install => s.(columns := Some(s.phase.view), phase := Free, asOf := AllAsOf(s.phase.version))
    case Drop => s.(columns := None, phase := Free)
    case Recover => s.(touched := [], forceFull := true, phase := Free)
    case Capture => s.(stamp := Some(Version(s)))
    case Save =>
      if s.file.Some? && s.file.value.stamp == s.stamp.value then s
      else s.(file := Some(File(s.stamp.value, s.columns.value)))
    case Restart =>
      s.(unrecorded := {}, touched := [], forceFull := false, columns := None, phase := Free, stamp := None)
  }

  function AllAsOf(version: nat): EntityId -> nat {
    _ => version
  }

  /** A re-read row is current, unless its record is gone and the row was left. */
  ghost function RereadAsOf(s: State, chunk: seq<EntityId>): EntityId -> nat
    requires WellFormed(s) && s.columns.Some?
  {
    var asOf, columns, current, version := s.asOf, s.columns.value, Current(s), Version(s);
    id => if id in chunk && (id in current || id !in columns) then version else asOf(id)
  }

  ghost function Run(s: State, actions: seq<Action>): Option<State>
    requires WellFormed(s)
    decreases |actions|
  {
    if actions == [] then Some(s)
    else if !Enabled(s, actions[0]) then None
    else
      StepKeepsWellFormed(s, actions[0]);
      Run(Step(s, actions[0]), actions[1..])
  }

  lemma StepKeepsWellFormed(s: State, a: Action)
    requires WellFormed(s) && Enabled(s, a)
    ensures WellFormed(Step(s, a))
  {
    if a.Write? {
      assert Leads(Current(s), Commit(a.changes.Keys, a.full), Changed(Current(s), a.changes));
    }
  }

  // ---------------------------------------------------------------- the invariant

  /** Commit `c` touched `id` after the row of `id` was read. */
  ghost predicate Missed(s: State, id: EntityId, c: nat) {
    c < |s.commits| && id in s.commits[c].ids && s.asOf(id) <= c
  }

  /** `id` was deleted by a commit that has not recorded it yet. */
  ghost predicate DeletedUnrecorded(s: State, id: EntityId)
    requires WellFormed(s)
  {
    exists c: nat :: Missed(s, id, c) && (c, id) in s.unrecorded && s.commits[c].full && id !in s.hist[c + 1]
  }

  /** The row of a deleted entity, which a patch leaves as it is until the deletion is recorded. */
  ghost predicate RowOutlivesRecord(s: State, id: EntityId)
    requires WellFormed(s)
  {
    s.columns.Some? && id in s.columns.value && DeletedUnrecorded(s, id)
  }

  /** What makes up for a missed commit: it is still to be recorded, it is pending, or its entity has a
    * row and was deleted by a commit still to be recorded.
    */
  ghost predicate Due(s: State, id: EntityId, c: nat)
    requires WellFormed(s) && c < |s.commits|
  {
    || (c, id) in s.unrecorded
    || s.forceFull
    || (!s.commits[c].full && (id in s.touched || (s.phase.Patching? && id in s.phase.rest)))
    || RowOutlivesRecord(s, id)
  }

  /** Every row is what it was in the state it was read from. */
  ghost predicate Rows(s: State)
    requires WellFormed(s)
  {
    s.columns.Some? ==> forall id: EntityId :: RowAsOf(s, id)
  }

  ghost predicate RowAsOf(s: State, id: EntityId)
    requires WellFormed(s) && s.columns.Some?
  {
    s.asOf(id) <= Version(s) && UpToDate(s.columns.value, s.hist[s.asOf(id)], id)
  }

  ghost predicate Covered(s: State)
    requires WellFormed(s)
  {
    s.columns.Some? && (s.phase.Free? || s.phase.Patching?) ==>
      forall id: EntityId, c: nat :: Missed(s, id, c) ==> Due(s, id, c)
  }

  ghost predicate PhaseOk(s: State)
    requires WellFormed(s)
  {
    match s.phase
    case Patching(_) => s.columns.Some?
    case Built(view, version) =>
      && version <= Version(s) && view == CleanAll(s.hist[version])
      && (forall id: EntityId, c :: version <= c < Version(s) && id in s.commits[c].ids ==> Pending(s, id, c))
    case _ => true
  }

  ghost predicate Pending(s: State, id: EntityId, c: nat)
    requires c < |s.commits|
  {
    (c, id) in s.unrecorded || s.forceFull || (!s.commits[c].full && id in s.touched)
  }

  /** A captured generation counts only recorded commits, and a file that could be loaded is exact. */
  ghost predicate FileOk(s: State)
    requires WellFormed(s)
  {
    && (s.stamp.Some? ==> s.stamp.value <= Version(s) && forall p :: p in s.unrecorded ==> s.stamp.value <= p.0)
    && (s.file.Some? ==> s.file.value.stamp <= Version(s))
    && (s.file.Some? && s.file.value.stamp == Version(s) ==> s.file.value.view == CleanAll(Current(s)))
  }

  /** A pending full refresh stands for every id, so none is kept beside it. */
  predicate DeltaOk(s: State) {
    s.forceFull ==> s.touched == []
  }

  ghost predicate Inv(s: State) {
    WellFormed(s) && Rows(s) && Covered(s) && PhaseOk(s) && FileOk(s) && DeltaOk(s)
  }

  // ---------------------------------------------------------------- what happens to one id between states

  lemma {:induction false} Untouched(s: State, id: EntityId, from: nat)
    requires WellFormed(s) && from <= Version(s)
    requires forall c :: from <= c < Version(s) ==> id !in s.commits[c].ids
    ensures SameIn(s.hist[from], Current(s), id)
    decreases Version(s) - from
  {
    if from < Version(s) {
      assert Leads(s.hist[from], s.commits[from], s.hist[from + 1]);
      Untouched(s, id, from + 1);
    }
  }

  /** An entity that is gone was deleted by some full commit. */
  lemma {:induction false} DeletedBetween(s: State, id: EntityId, from: nat) returns (c: nat)
    requires WellFormed(s) && from <= Version(s) && id in s.hist[from] && id !in Current(s)
    ensures from <= c < Version(s) && id in s.commits[c].ids && s.commits[c].full && id !in s.hist[c + 1]
    decreases Version(s) - from
  {
    assert Leads(s.hist[from], s.commits[from], s.hist[from + 1]);
    if id in s.hist[from + 1] {
      c := DeletedBetween(s, id, from + 1);
    } else {
      c := from;
    }
  }

  // ---------------------------------------------------------------- every step keeps the invariant

  lemma WriteKeeps(s: State, a: Action)
    requires Inv(s) && Enabled(s, a) && a.Write?
    ensures Inv(Step(s, a))
  {
    StepKeepsWellFormed(s, a);
    var t := Step(s, a);
    forall id: EntityId, c: nat | Missed(t, id, c)
      ensures (c, id) in t.unrecorded || Missed(s, id, c)
    {
    }
    assert forall id, c :: Missed(s, id, c) ==> Missed(t, id, c);
    if s.columns.Some? {
      forall id: EntityId
        ensures RowAsOf(t, id)
      {
        assert RowAsOf(s, id);
      }
      forall id: EntityId, c: nat | Missed(t, id, c) && (s.phase.Free? || s.phase.Patching?)
        ensures Due(t, id, c)
      {
        if Missed(s, id, c) {
          assert Due(s, id, c);
        }
      }
    }
  }

  lemma RecordTouchedKeeps(s: State, a: Action)
    requires Inv(s) && Enabled(s, a) && a.RecordTouched?
    ensures Inv(Step(s, a))
  {
    StepKeepsWellFormed(s, a);
    var t := Step(s, a);
    assert forall id, c :: Missed(s, id, c) <==> Missed(t, id, c);
    forall id: EntityId, c: nat | (c, id) in s.unrecorded
      ensures (c, id) in t.unrecorded || s.forceFull || (!s.commits[c].full && id in t.touched)
      ensures s.commits[c].full ==> (c, id) in t.unrecorded
    {
    }
    if s.columns.Some? {
      forall id: EntityId
        ensures RowAsOf(t, id)
      {
        assert RowAsOf(s, id);
      }
      forall id: EntityId, c: nat | Missed(t, id, c) && (s.phase.Free? || s.phase.Patching?)
        ensures Due(t, id, c)
      {
        assert Due(s, id, c);
      }
    }
  }

  lemma RecordFullKeeps(s: State, a: Action)
    requires Inv(s) && Enabled(s, a) && (a.RecordFull? || a.Recover?)
    ensures Inv(Step(s, a))
  {
    StepKeepsWellFormed(s, a);
    var t := Step(s, a);
    if s.columns.Some? {
      forall id: EntityId
        ensures RowAsOf(t, id)
      {
        assert RowAsOf(s, id);
      }
    }
  }

  lemma TakeKeeps(s: State, a: Action)
    requires Inv(s) && Enabled(s, a) && a.Take?
    ensures Inv(Step(s, a))
  {
    StepKeepsWellFormed(s, a);
    var t := Step(s, a);
    assert forall id, c :: Missed(s, id, c) <==> Missed(t, id, c);
    if s.columns.Some? {
      forall id: EntityId
        ensures RowAsOf(t, id)
      {
        assert RowAsOf(s, id);
      }
      forall id: EntityId, c: nat | Missed(t, id, c) && t.phase.Patching?
        ensures Due(t, id, c)
      {
        assert Due(s, id, c);
      }
    }
  }

  /** Re-reading an id makes its row current exactly when its record still exists or it has no row. */
  lemma RereadRowCurrentIff(s: State, chunk: seq<EntityId>, id: EntityId)
    requires WellFormed(s) && s.columns.Some? && id in chunk
    ensures UpToDate(ApplyIds(s.columns.value, Current(s), chunk), Current(s), id)
      <==> id in Current(s) || id !in s.columns.value
  {
    ApplyIdsAt(s.columns.value, Current(s), chunk, id);
  }

  lemma PatchedRows(s: State, id: EntityId)
    requires Inv(s) && Enabled(s, PatchChunk)
    ensures WellFormed(Step(s, PatchChunk)) && RowAsOf(Step(s, PatchChunk), id)
  {
    StepKeepsWellFormed(s, PatchChunk);
    assert RowAsOf(s, id);
    ApplyIdsAt(s.columns.value, Current(s), NextChunk(s), id);
  }

  lemma PatchedDue(s: State, id: EntityId, c: nat)
    requires Inv(s) && Enabled(s, PatchChunk) && WellFormed(Step(s, PatchChunk)) && Missed(Step(s, PatchChunk), id, c)
    ensures Due(Step(s, PatchChunk), id, c)
  {
    var t, chunk := Step(s, PatchChunk), NextChunk(s);
    assert Missed(s, id, c) && Due(s, id, c);
    assert s.asOf(id) == t.asOf(id);
    ApplyIdsAt(s.columns.value, Current(s), chunk, id);
    if id in chunk && !s.forceFull && (c, id) !in s.unrecorded {
      assert RowAsOf(s, id);
      var d := DeletedBetween(s, id, s.asOf(id));
      assert Missed(s, id, d) && Due(s, id, d);
      if (d, id) in s.unrecorded {
        assert Missed(t, id, d);
      } else {
        StillDeleted(s, t, id);
      }
    } else if DeletedUnrecorded(s, id) {
      StillDeleted(s, t, id);
    } else if id in s.phase.rest {
      assert s.phase.rest == chunk + t.phase.rest;
    }
  }

  lemma StillDeleted(s: State, t: State, id: EntityId)
    requires WellFormed(s) && WellFormed(t) && DeletedUnrecorded(s, id)
    requires t.commits == s.commits && t.hist == s.hist && t.unrecorded == s.unrecorded && t.asOf(id) == s.asOf(id)
    ensures DeletedUnrecorded(t, id)
  {
    var c: nat :| Missed(s, id, c) && (c, id) in s.unrecorded && s.commits[c].full && id !in s.hist[c + 1];
    assert Missed(t, id, c);
  }

  lemma PatchChunkKeeps(s: State, a: Action)
    requires Inv(s) && Enabled(s, a) && a.PatchChunk?
    ensures Inv(Step(s, a))
  {
    StepKeepsWellFormed(s, a);
    var t := Step(s, a);
    forall id: EntityId
      ensures RowAsOf(t, id)
    {
      PatchedRows(s, id);
    }
    forall id: EntityId, c: nat | Missed(t, id, c)
      ensures Due(t, id, c)
    {
      PatchedDue(s, id, c);
    }
  }

  lemma InstallKeeps(s: State, a: Action)
    requires Inv(s) && Enabled(s, a) && a.Install?
    ensures Inv(Step(s, a))
  {
    StepKeepsWellFormed(s, a);
    var t := Step(s, a);
    forall id: EntityId
      ensures RowAsOf(t, id)
    {
    }
    forall id: EntityId, c: nat | Missed(t, id, c)
      ensures Due(t, id, c)
    {
      assert Pending(s, id, c);
    }
  }

  lemma PatchDoneKeeps(s: State, a: Action)
    requires Inv(s) && Enabled(s, a) && (a.PatchDone? || a.Capture?)
    ensures Inv(Step(s, a))
  {
    StepKeepsWellFormed(s, a);
    var t := Step(s, a);
    assert forall id, c :: Missed(s, id, c) <==> Missed(t, id, c);
    if s.columns.Some? {
      forall id: EntityId
        ensures RowAsOf(t, id)
      {
        assert RowAsOf(s, id);
      }
      forall id: EntityId, c: nat | Missed(t, id, c) && (s.phase.Free? || s.phase.Patching?)
        ensures Due(t, id, c)
      {
        assert Due(s, id, c);
      }
    }
  }

  lemma ReplacementKeeps(s: State, a: Action)
    requires Inv(s) && Enabled(s, a) && (a.Fail? || a.Scan? || a.Load? || a.Drop? || a.Restart?)
    ensures Inv(Step(s, a))
  {
    StepKeepsWellFormed(s, a);
    var t := Step(s, a);
    if t.columns.Some? {
      forall id: EntityId
        ensures RowAsOf(t, id)
      {
        assert RowAsOf(s, id);
      }
    }
  }

  lemma SaveKeeps(s: State, a: Action)
    requires Inv(s) && Enabled(s, a) && a.Save?
    ensures Inv(Step(s, a))
  {
    StepKeepsWellFormed(s, a);
    var t := Step(s, a);
    assert forall id, c :: Missed(s, id, c) <==> Missed(t, id, c);
    if s.stamp.value == Version(s) {
      assert s.unrecorded == {};
      ServesCurrent(s);
    }
    forall id: EntityId
      ensures RowAsOf(t, id)
    {
      assert RowAsOf(s, id);
    }
    forall id: EntityId, c: nat | Missed(t, id, c)
      ensures Due(t, id, c)
    {
      assert Due(s, id, c);
    }
  }

  lemma StepKeepsInv(s: State, a: Action)
    requires Inv(s) && Enabled(s, a)
    ensures Inv(Step(s, a))
  {
    match a
    case Write(_, _) => WriteKeeps(s, a);
    case RecordTouched(_, _) => RecordTouchedKeeps(s, a);
    case RecordFull(_) => RecordFullKeeps(s, a);
    case Recover => RecordFullKeeps(s, a);
    case Take => TakeKeeps(s, a);
    case PatchChunk => PatchChunkKeeps(s, a);
    case PatchDone => PatchDoneKeeps(s, a);
    case Capture => PatchDoneKeeps(s, a);
    case Install => InstallKeeps(s, a);
    case Save => SaveKeeps(s, a);
    case _ => ReplacementKeeps(s, a);
  }

  /** The invariant holds in every state any run reaches. */
  lemma {:induction false} RunsKeepInv(s: State, actions: seq<Action>)
    requires Inv(s)
    ensures Run(s, actions).Some? ==> Inv(Run(s, actions).value)
    decreases |actions|
  {
    if actions != [] && Enabled(s, actions[0]) {
      StepKeepsInv(s, actions[0]);
      RunsKeepInv(Step(s, actions[0]), actions[1..]);
    }
  }

  lemma InitialInv(store: Snapshot)
    ensures Inv(Initial(store))
  {
  }

  // ---------------------------------------------------------------- what a reader is served

  /** The columns a reader may use differ from storage on an id only where some commit that touched the
    * id is not recorded yet. Each row is the row of one committed state, and every recorded commit after
    * that state left the id alone, unless the row is that of an entity deleted by a commit that is not
    * recorded yet.
    */
  lemma ServedRow(s: State, id: EntityId)
    requires Inv(s) && CanServe(s)
    ensures s.asOf(id) <= Version(s) && UpToDate(s.columns.value, s.hist[s.asOf(id)], id)
    ensures !UpToDate(s.columns.value, Current(s), id) ==> exists c: nat :: Missed(s, id, c) && (c, id) in s.unrecorded
    ensures !RowOutlivesRecord(s, id) ==> forall c: nat :: Missed(s, id, c) ==> (c, id) in s.unrecorded
  {
    assert RowAsOf(s, id);
    if !UpToDate(s.columns.value, Current(s), id) {
      if forall c :: s.asOf(id) <= c < Version(s) ==> id !in s.commits[c].ids {
        Untouched(s, id, s.asOf(id));
      } else {
        var c :| s.asOf(id) <= c < Version(s) && id in s.commits[c].ids;
        assert Missed(s, id, c) && Due(s, id, c);
      }
    }
    forall c: nat | Missed(s, id, c)
      ensures (c, id) in s.unrecorded || RowOutlivesRecord(s, id)
    {
      assert Due(s, id, c);
    }
  }

  /** Wherever the columns and storage disagree, the id is pending, a full refresh is pending, or a commit
    * that touched the id is not recorded.
    */
  lemma DisagreementIsOwed(s: State, id: EntityId)
    requires Inv(s) && s.phase == Free && s.columns.Some? && !UpToDate(s.columns.value, Current(s), id)
    ensures id in s.touched || s.forceFull || exists c: nat :: Missed(s, id, c) && (c, id) in s.unrecorded
  {
    assert RowAsOf(s, id);
    if forall c :: s.asOf(id) <= c < Version(s) ==> id !in s.commits[c].ids {
      Untouched(s, id, s.asOf(id));
    } else {
      var c :| s.asOf(id) <= c < Version(s) && id in s.commits[c].ids;
      assert Missed(s, id, c) && Due(s, id, c);
    }
  }

  /** Once every commit is recorded, a reader is served exactly what storage holds. */
  lemma ServesCurrent(s: State)
    requires Inv(s) && CanServe(s) && s.unrecorded == {}
    ensures s.columns.value == CleanAll(Current(s))
  {
    forall id: EntityId
      ensures UpToDate(s.columns.value, Current(s), id)
    {
      ServedRow(s, id);
    }
    SameEverywhere(s.columns.value, Current(s));
  }

  /** A file is only ever loaded when it holds exactly what storage holds. */
  lemma LoadIsBuild(s: State)
    requires Inv(s) && Enabled(s, Load)
    ensures Step(s, Load) == Step(s, Scan)
  {
  }

  // ---------------------------------------------------------------- one refresh with nothing between its steps

  /** The write lock: no commit of the run starts before the one before it is recorded. */
  ghost predicate Serialized(s: State, actions: seq<Action>)
    requires WellFormed(s)
    decreases |actions|
  {
    actions != [] && Enabled(s, actions[0]) ==>
      && (actions[0].Write? ==> s.unrecorded == {})
      && (StepKeepsWellFormed(s, actions[0]); Serialized(Step(s, actions[0]), actions[1..]))
  }

  ghost predicate OnlyLatestUnrecorded(s: State) {
    forall p :: p in s.unrecorded ==> p.0 == Version(s) - 1
  }

  lemma {:induction false} SerializedKeepsLatest(s: State, actions: seq<Action>)
    requires WellFormed(s) && OnlyLatestUnrecorded(s) && Serialized(s, actions)
    ensures Run(s, actions).Some? ==> OnlyLatestUnrecorded(Run(s, actions).value)
    decreases |actions|
  {
    if actions != [] && Enabled(s, actions[0]) {
      StepKeepsWellFormed(s, actions[0]);
      SerializedKeepsLatest(Step(s, actions[0]), actions[1..]);
    }
  }

  /** The chunks a patch of these ids takes. */
  function Chunks(rest: seq<EntityId>): seq<Action>
    decreases |rest|
  {
    if rest == [] then [] else [PatchChunk] + Chunks(rest[ChunkLen(rest, PATCH_CHUNK)..])
  }

  function WholeRefresh(s: State): seq<Action> {
    [Take] + (Chunks(s.touched) + [PatchDone])
  }

  /** `t` is `s` with these ids re-read. */
  ghost predicate Reread(s: State, t: State, ids: seq<EntityId>)
    requires WellFormed(s) && s.columns.Some?
  {
    && t == s.(columns := Some(ApplyIds(s.columns.value, Current(s), ids)), phase := t.phase, asOf := t.asOf)
    && forall id: EntityId :: t.asOf(id) == RereadAsOf(s, ids)(id)
  }

  lemma RereadNothing(s: State)
    requires WellFormed(s) && s.columns.Some?
    ensures Reread(s, s, [])
  {
  }

  lemma RereadMore(s: State, s1: State, t: State, chunk: seq<EntityId>, rest: seq<EntityId>)
    requires WellFormed(s) && WellFormed(s1) && s.columns.Some? && Reread(s, s1, chunk) && Reread(s1, t, rest)
    ensures Reread(s, t, chunk + rest)
  {
    ApplyIdsConcat(s.columns.value, Current(s), chunk, rest);
    forall id: EntityId
      ensures t.asOf(id) == RereadAsOf(s, chunk + rest)(id)
    {
      ApplyIdsAt(s.columns.value, Current(s), chunk, id);
    }
  }

  lemma ChunkStep(s: State)
    requires WellFormed(s) && Enabled(s, PatchChunk)
    ensures var t, n := Step(s, PatchChunk), ChunkLen(s.phase.rest, PATCH_CHUNK);
      && WellFormed(t) && Reread(s, t, s.phase.rest[..n]) && t.phase == Patching(s.phase.rest[n..])
  {
    StepKeepsWellFormed(s, PatchChunk);
  }

  lemma {:induction false} ChunksRun(s: State) returns (t: State)
    requires WellFormed(s) && s.columns.Some? && s.phase.Patching?
    ensures Run(s, Chunks(s.phase.rest)) == Some(t)
    ensures WellFormed(t) && Reread(s, t, s.phase.rest) && t.phase == Patching([])
    decreases |s.phase.rest|
  {
    var rest := s.phase.rest;
    if rest == [] {
      t := s;
      RereadNothing(s);
    } else {
      var n := ChunkLen(rest, PATCH_CHUNK);
      var s1 := Step(s, PatchChunk);
      ChunkStep(s);
      t := ChunksRun(s1);
      RunUnfolds(s, PatchChunk, Chunks(rest[n..]));
      RereadMore(s, s1, t, rest[..n], rest[n..]);
      assert rest[..n] + rest[n..] == rest;
    }
  }

  lemma WholeRefreshRuns(s: State) returns (t: State)
    requires WellFormed(s) && s.phase == Free && s.columns.Some? && !s.forceFull
    ensures Run(s, WholeRefresh(s)) == Some(t) && WellFormed(t) && CanServe(t)
    ensures Reread(s.(touched := []), t, s.touched)
  {
    StepKeepsWellFormed(s, Take);
    var s1 := Step(s, Take);
    var s2 := ChunksRun(s1);
    RunUnfolds(s, Take, Chunks(s.touched) + [PatchDone]);
    RunConcat(s1, Chunks(s.touched), [PatchDone]);
    RunUnfolds(s2, PatchDone, []);
    t := Step(s2, PatchDone);
    assert [PatchDone] + [] == [PatchDone];
    RunNothing(t);
  }

  /** Under the write lock a refresh makes up for every recorded commit but those to an entity that has a
    * row and no record, and it makes up for none of those.
    */
  lemma RefreshMissesIff(s: State) returns (t: State)
    requires Inv(s) && s.phase == Free && s.columns.Some? && !s.forceFull && OnlyLatestUnrecorded(s)
    ensures Run(s, WholeRefresh(s)) == Some(t) && WellFormed(t) && CanServe(t) && Inv(t)
    ensures forall id: EntityId, c: nat :: Missed(s, id, c) && (c, id) !in s.unrecorded ==>
      (Missed(t, id, c) <==> id in s.columns.value && id !in Current(s))
  {
    t := WholeRefreshRuns(s);
    RunsKeepInv(s, WholeRefresh(s));
    forall id: EntityId, c: nat | Missed(s, id, c) && (c, id) !in s.unrecorded
      ensures Missed(t, id, c) <==> id in s.columns.value && id !in Current(s)
    {
      RefreshedOrLeft(s, t, id, c);
    }
  }

  lemma RefreshedOrLeft(s: State, t: State, id: EntityId, c: nat)
    requires Inv(s) && s.phase == Free && s.columns.Some? && !s.forceFull && OnlyLatestUnrecorded(s)
    requires Reread(s.(touched := []), t, s.touched) && Missed(s, id, c) && (c, id) !in s.unrecorded
    ensures Missed(t, id, c) <==> id in s.columns.value && id !in Current(s)
  {
    assert Due(s, id, c);
    assert t.asOf(id) == RereadAsOf(s.(touched := []), s.touched)(id);
  }

  // ---------------------------------------------------------------- why the exception and the lock are there

  function Record(n: i64): Value {
    Object(map[[0] := Num(Int(n))])
  }

  lemma RunUnfolds(s: State, a: Action, rest: seq<Action>)
    requires WellFormed(s) && Enabled(s, a)
    ensures WellFormed(Step(s, a)) && Run(s, [a] + rest) == Run(Step(s, a), rest)
  {
    StepKeepsWellFormed(s, a);
    assert ([a] + rest)[1..] == rest;
  }

  lemma RunNothing(s: State)
    requires WellFormed(s)
    ensures Run(s, []) == Some(s)
  {
  }

  lemma {:induction false} RunConcat(s: State, a: seq<Action>, b: seq<Action>)
    requires WellFormed(s)
    ensures match Run(s, a)
      case None => true
      case Some(t) => WellFormed(t) && Run(s, a + b) == Run(t, b)
    decreases |a|
  {
    if a == [] {
      assert a + b == b;
    } else if Enabled(s, a[0]) {
      StepKeepsWellFormed(s, a[0]);
      assert (a + b)[1..] == a[1..] + b;
      RunConcat(Step(s, a[0]), a[1..], b);
    }
  }

  const BUILD := [Take, Scan, Install]

  /** Entity 1 is updated and the update recorded, then deleted by a commit not yet recorded. */
  const UPDATE := Write(map[1 := Some(Record(1))], false)
  const UPDATE_THEN_DELETE := [UPDATE, RecordTouched(0, [1]), Write(map[1 := None], true)]

  const REFRESH := [Take, PatchChunk, PatchDone]

  ghost predicate JustBuilt(s: State) {
    && WellFormed(s) && s.hist == [map[1 := Record(0)]] && s.unrecorded == {} && s.touched == [] && !s.forceFull
    && s.phase == Free && s.columns == Some(map[1 := Clean(Record(0))]) && s.asOf(1) == 0 && s.file == None
  }

  /** The update is committed, and recorded or not; the columns are as they were built. */
  ghost predicate Updated(s: State, recorded: bool) {
    && WellFormed(s) && s.hist == [map[1 := Record(0)], map[1 := Record(1)]] && s.commits == [Commit({1}, false)]
    && s.unrecorded == (if recorded then {} else {(0, 1)}) && s.touched == (if recorded then [1] else [])
    && !s.forceFull && s.phase == Free && s.columns == Some(map[1 := Clean(Record(0))]) && s.asOf(1) == 0
    && s.file == None
  }

  ghost predicate DeletedBehind(s: State) {
    && WellFormed(s) && Version(s) == 2 && 1 !in Current(s) && 1 in s.commits[0].ids
    && s.unrecorded == {(1, 1)} && !s.forceFull
    && s.columns == Some(map[1 := Clean(Record(0))]) && s.asOf(1) == 0
  }

  lemma BuildSteps(s0: State, s1: State, s2: State, s3: State)
    requires s0 == Initial(map[1 := Record(0)])
    requires s1 == s0.(phase := Building) && s2 == s0.(phase := Built(map[1 := Clean(Record(0))], 0))
    requires s3 == s0.(columns := Some(map[1 := Clean(Record(0))]), phase := Free, asOf := AllAsOf(0))
    ensures WellFormed(s0) && Enabled(s0, Take) && Step(s0, Take) == s1
    ensures WellFormed(s1) && Enabled(s1, Scan) && Step(s1, Scan) == s2
    ensures WellFormed(s2) && Enabled(s2, Install) && Step(s2, Install) == s3
    ensures WellFormed(s3) && JustBuilt(s3)
  {
    hide Clean;
    hide Record;
    assert CleanAll(s0.hist[0]) == map[1 := Clean(Record(0))];
  }

  lemma BuildRuns() returns (s: State)
    ensures Run(Initial(map[1 := Record(0)]), BUILD) == Some(s) && JustBuilt(s)
  {
    assert BUILD == [Take] + [Scan, Install];
    var view: View := map[1 := Clean(Record(0))];
    var s0 := Initial(map[1 := Record(0)]);
    hide *;
    var s1 := s0.(phase := Building);
    var s2 := s0.(phase := Built(view, 0));
    s := s0.(columns := Some(view), phase := Free, asOf := AllAsOf(0));
    BuildSteps(s0, s1, s2, s);
    RunUnfolds(s0, Take, [Scan, Install]);
    RunUnfolds(s1, Scan, [Install]);
    RunUnfolds(s2, Install, []);
    RunNothing(s);
  }

  lemma UpdateStep(s: State)
    requires JustBuilt(s)
    ensures Enabled(s, UPDATE) && Updated(Step(s, UPDATE), false)
  {
    hide Record;
    hide Clean;
    StepKeepsWellFormed(s, UPDATE);
    var t := Step(s, UPDATE);
    assert map[1 := Some(Record(1))].Keys == {1};
    assert t.unrecorded == {(0, 1)};
    assert t.hist[1] == map[1 := Record(1)];
  }

  lemma RecordStep(s: State)
    requires Updated(s, false)
    ensures Enabled(s, RecordTouched(0, [1])) && Updated(Step(s, RecordTouched(0, [1])), true)
  {
    hide Record;
    hide Clean;
    StepKeepsWellFormed(s, RecordTouched(0, [1]));
    assert Step(s, RecordTouched(0, [1])).unrecorded == {};
  }

  lemma DeleteStep(s: State)
    requires Updated(s, true)
    ensures var a := Write(map[1 := None], true);
      Enabled(s, a) && DeletedBehind(Step(s, a)) && Step(s, a).phase == Free && Step(s, a).touched == [1]
  {
    hide Record;
    hide Clean;
    var a := Write(map[1 := None], true);
    StepKeepsWellFormed(s, a);
    assert a.changes.Keys == {1};
    assert Step(s, a).unrecorded == {(1, 1)};
  }

  lemma UpdateThenDeleteRuns(s: State) returns (t: State)
    requires JustBuilt(s)
    ensures Run(s, UPDATE_THEN_DELETE) == Some(t) && DeletedBehind(t) && t.phase == Free && t.touched == [1]
  {
    var run := UPDATE_THEN_DELETE;
    UpdateStep(s);
    var s1 := Step(s, run[0]);
    RecordStep(s1);
    var s2 := Step(s1, run[1]);
    DeleteStep(s2);
    t := Step(s2, run[2]);
    AreWellFormed(s, s1, s2);
    assert run == [run[0]] + [run[1], run[2]];
    hide *;
    RunUnfolds(s, run[0], [run[1], run[2]]);
    RunUnfolds(s1, run[1], [run[2]]);
    RunUnfolds(s2, run[2], []);
    RunNothing(t);
  }

  lemma AreWellFormed(s: State, s1: State, s2: State)
    requires JustBuilt(s) && Updated(s1, false) && Updated(s2, true)
    ensures WellFormed(s) && WellFormed(s1) && WellFormed(s2)
  {
  }

  lemma RefreshRuns(s: State) returns (t: State)
    requires DeletedBehind(s) && s.phase == Free && s.touched == [1]
    ensures Run(s, REFRESH) == Some(t) && DeletedBehind(t) && CanServe(t)
  {
    RunUnfolds(s, Take, [PatchChunk, PatchDone]);
    var s1 := Step(s, Take);
    assert NextChunk(s1) == [1];
    RunUnfolds(s1, PatchChunk, [PatchDone]);
    var s2 := Step(s1, PatchChunk);
    assert ApplyIds(s1.columns.value, Current(s1), [1]) == s1.columns.value by {
      assert [1][..0] == [];
    }
    RunUnfolds(s2, PatchDone, []);
    t := Step(s2, PatchDone);
  }

  /** The patch skips the missing record, so the recorded update never reaches the row a reader is served. */
  lemma RecordedUpdateIsMissed() returns (s: State)
    ensures Run(Initial(map[1 := Record(0)]), BUILD + UPDATE_THEN_DELETE + REFRESH) == Some(s) && WellFormed(s)
    ensures CanServe(s) && Missed(s, 1, 0) && (0, 1) !in s.unrecorded
    ensures s.columns.value == map[1 := Clean(Record(0))]
  {
    var s0 := Initial(map[1 := Record(0)]);
    var s1 := BuildRuns();
    var s2 := UpdateThenDeleteRuns(s1);
    s := RefreshRuns(s2);
    RunConcat(s0, BUILD, UPDATE_THEN_DELETE);
    RunConcat(s0, BUILD + UPDATE_THEN_DELETE, REFRESH);
  }

  /** The generation captured without the write lock: a commit it counts may be unrecorded. */
  function CapturedUnlocked(s: State): State {
    s.(stamp := Some(Version(s)))
  }

  /** Saving the columns, and a later process loading the file. */
  const SAVE_AND_RELOAD := [Save, Restart, Take, Load, Install]

  /** One step of saving the columns of `s` and reloading them. */
  ghost predicate Reloading(s0: State, s: State, a: Action)
    requires WellFormed(s) && s.columns.Some?
  {
    && WellFormed(s0) && s0.hist == s.hist && s0.commits == s.commits && s0.phase == (match a
      case Load => Building
      case Install => Built(s.columns.value, Version(s))
      case _ => Free)
    && (a == Save ==>
          CanServe(s0) && s0.columns == s.columns && s0.stamp == Some(Version(s))
          && (s0.file.Some? ==> s0.file.value.stamp != Version(s)))
    && (a != Save ==> s0.file == Some(File(Version(s), s.columns.value)))
    && (a in {Take, Load, Install} ==>
          s0.unrecorded == {} && s0.touched == [] && !s0.forceFull && s0.columns == None && s0.stamp == None)
  }

  lemma ReloadStep(s0: State, s: State, a: Action, next: Action)
    requires WellFormed(s) && s.columns.Some? && Reloading(s0, s, a)
    requires (a, next) in {(Save, Restart), (Restart, Take), (Take, Load), (Load, Install)}
    ensures Enabled(s0, a) && Reloading(Step(s0, a), s, next)
  {
    StepKeepsWellFormed(s0, a);
  }

  lemma LastReload(s4: State, s: State) returns (t: State)
    requires WellFormed(s) && s.columns.Some? && Reloading(s4, s, Install)
    ensures Enabled(s4, Install) && t == Step(s4, Install) && WellFormed(t) && CanServe(t)
    ensures t.hist == s.hist && t.unrecorded == {} && t.columns == s.columns && t.stamp == None
    ensures t.columns.value == CleanAll(Current(t))
      <==> forall id: EntityId :: UpToDate(s.columns.value, Current(s), id)
  {
    t := Step(s4, Install);
    StepKeepsWellFormed(s4, Install);
    SameEverywhere(s.columns.value, Current(s));
  }

  /** A file saved under the current generation is loaded as it is, so readers are then served what storage
    * holds if and only if the saved columns already were.
    */
  lemma SavedUnderCurrentIff(s: State) returns (t: State)
    requires Inv(s) && CanServe(s) && (s.file.Some? ==> s.file.value.stamp != Version(s))
    ensures Run(CapturedUnlocked(s), SAVE_AND_RELOAD) == Some(t) && WellFormed(t) && CanServe(t)
    ensures t.hist == s.hist && t.unrecorded == {} && t.columns == s.columns && t.stamp == None
    ensures t.columns.value == CleanAll(Current(t))
      <==> forall id: EntityId :: UpToDate(s.columns.value, Current(s), id)
  {
    var s0 := CapturedUnlocked(s);
    assert Reloading(s0, s, Save);
    hide *;
    ReloadStep(s0, s, Save, Restart);
    var s1 := Step(s0, Save);
    ReloadStep(s1, s, Restart, Take);
    var s2 := Step(s1, Restart);
    ReloadStep(s2, s, Take, Load);
    var s3 := Step(s2, Take);
    ReloadStep(s3, s, Load, Install);
    var s4 := Step(s3, Load);
    t := LastReload(s4, s);
    assert SAVE_AND_RELOAD == [Save] + [Restart, Take, Load, Install];
    RunUnfolds(s0, Save, [Restart, Take, Load, Install]);
    RunUnfolds(s1, Restart, [Take, Load, Install]);
    RunUnfolds(s2, Take, [Load, Install]);
    RunUnfolds(s3, Load, [Install]);
    RunUnfolds(s4, Install, []);
    RunNothing(t);
  }

  /** The first save under a captured generation stays: no later save under it replaces the file, however
    * much newer the columns are by then.
    */
  lemma FirstSaveStays(s: State, t: State)
    requires WellFormed(s) && Enabled(s, Save) && WellFormed(t) && Enabled(t, Save)
    requires t.stamp == s.stamp && t.file == Step(s, Save).file
    ensures Step(t, Save).file == t.file && t.file.Some? && t.file.value.stamp == s.stamp.value
  {
  }

  /** Without the lock a run exists in which a later process, with nothing pending and nothing unrecorded,
    * serves the value from before a committed update.
    */
  lemma UnlockedCaptureServesStale() returns (s: State, t: State)
    ensures Run(Initial(map[1 := Record(0)]), BUILD + [UPDATE]) == Some(s) && WellFormed(s) && !Enabled(s, Capture)
    ensures Run(CapturedUnlocked(s), SAVE_AND_RELOAD) == Some(t) && WellFormed(t) && CanServe(t) && t.unrecorded == {}
    ensures t.columns.value == map[1 := Clean(Record(0))] && CleanAll(Current(t)) == map[1 := Clean(Record(1))]
    ensures t.columns.value != CleanAll(Current(t))
  {
    s := UpdateRuns();
    t := SavedUnderCurrentIff(s);
    StaleView(t);
  }

  lemma StartFacts(store: Snapshot)
    ensures WellFormed(Initial(store))
  {
  }

  lemma BuiltFacts(s: State)
    requires JustBuilt(s)
    ensures WellFormed(s)
  {
  }

  lemma UpdateFacts(s: State)
    requires Updated(s, false)
    ensures WellFormed(s) && CanServe(s) && !Enabled(s, Capture)
  {
    assert (0, 1) in s.unrecorded;
  }

  lemma UpdateRuns() returns (s: State)
    ensures Run(Initial(map[1 := Record(0)]), BUILD + [UPDATE]) == Some(s) && Inv(s)
    ensures Updated(s, false) && CanServe(s) && !Enabled(s, Capture)
  {
    var store: Snapshot := map[1 := Record(0)];
    hide *;
    var s0 := Initial(store);
    StartFacts(store);
    InitialInv(store);
    var s1 := BuildRuns();
    BuiltFacts(s1);
    UpdateStep(s1);
    s := Step(s1, UPDATE);
    UpdateFacts(s);
    assert [UPDATE] + [] == [UPDATE];
    RunUnfolds(s1, UPDATE, []);
    RunNothing(s);
    RunConcat(s0, BUILD, [UPDATE]);
    RunsKeepInv(s0, BUILD + [UPDATE]);
  }

  lemma StaleView(t: State)
    requires WellFormed(t) && t.hist == [map[1 := Record(0)], map[1 := Record(1)]]
    ensures CleanAll(Current(t)) == map[1 := Clean(Record(1))] && map[1 := Clean(Record(0))] != CleanAll(Current(t))
  {
    assert Clean(Record(0))[[0]] == Num(Int(0)) && Clean(Record(1))[[0]] == Num(Int(1));
    assert map[1 as EntityId := Clean(Record(0))][1] == Clean(Record(0));
  }
}
