/** The whole-run theorem about the outbox: every run of transactions leaves a
    log that replays to the committed hosts, and what it takes to break that. */
module OutboxReplication {
  import opened Common
  import opened OutboxProtocol

  /* ---------- tracking and flushing, read as sets ---------- */

  lemma {:induction false} TrackAllTracks(pending: seq<Op>, ops: seq<Op>)
    ensures forall op :: op in TrackAll(pending, ops) <==> op in pending || op in ops
    ensures Distinct(pending) ==> Distinct(TrackAll(pending, ops))
    decreases |ops|
  {
    if ops != [] {
      var front := ops[..|ops| - 1];
      TrackAllTracks(pending, front);
      assert ops == front + [ops[|ops| - 1]];
    }
  }

  lemma {:induction false} OpsOf(changes: seq<Change>, t: Table, dirtyOnly: bool)
    requires forall c :: c in changes ==> Legal(c, t)
    ensures forall op :: op in Ops(changes, t, dirtyOnly)
              <==> exists c :: c in changes && (dirtyOnly ==> c.Update?) && OpOf(c, t) == Some(op)
    decreases |changes|
  {
    if changes != [] {
      var front := changes[..|changes| - 1];
      OpsOf(front, t, dirtyOnly);
      assert changes == front + [changes[|changes| - 1]];
    }
  }

  /** What a flush leaves in the place of one host. */
  predicate Effect(c: Change, id: HostId, u: Table) {
    if c.Remove? then id !in u else id in u && u[id] == c.row
  }

  /** A flush gives every host it names its new row and no other host anything. */
  lemma {:induction false} ApplyAllAt(changes: seq<Change>, t: Table, id: HostId)
    requires DistinctIds(changes)
    ensures forall c :: c in changes && c.id == id ==> Effect(c, id, ApplyAll(changes, t))
    ensures (forall c :: c in changes ==> c.id != id) ==> SameAt(id, t, ApplyAll(changes, t))
    decreases |changes|
  {
    if changes != [] {
      var front := changes[..|changes| - 1];
      var last := changes[|changes| - 1];
      ApplyAllAt(front, t, id);
      assert changes == front + [last];
      LastIsNew(changes);
      var mid := ApplyAll(front, t);
      assert if last.id == id then Effect(last, id, Apply(last, mid)) else SameAt(id, mid, Apply(last, mid));
      if last.id != id {
        forall c | c in changes && c.id == id ensures Effect(c, id, Apply(last, mid)) {
          assert c in front;
        }
      }
    }
  }

  predicate SameAt(id: HostId, t: Table, u: Table) {
    (id in u <==> id in t) && (id in t ==> u[id] == t[id])
  }

  lemma LastIsNew(changes: seq<Change>)
    requires DistinctIds(changes) && changes != []
    ensures forall c :: c in changes[..|changes| - 1] ==> c.id != changes[|changes| - 1].id
  {
    forall c | c in changes[..|changes| - 1] ensures c.id != changes[|changes| - 1].id {
      var i :| 0 <= i < |changes| - 1 && changes[i] == c;
    }
  }

  /** The operations pending after a flush. */
  lemma FlushTracks(db: Db, changes: seq<Change>)
    requires LegalFlush(changes, db.working)
    ensures forall op :: op in Next(db, Flush(changes)).pending
              <==> op in db.pending || exists c :: c in changes && OpOf(c, db.working) == Some(op)
    ensures Distinct(db.pending) ==> Distinct(Next(db, Flush(changes)).pending)
  {
    var dirty, all := Ops(changes, db.working, true), Ops(changes, db.working, false);
    OpsOf(changes, db.working, true);
    OpsOf(changes, db.working, false);
    TrackAllTracks(db.pending, dirty);
    TrackAllTracks(TrackAll(db.pending, dirty), all);
  }

  /* ---------- the invariant of an open transaction ---------- */

  /** A change of the kind the service makes: at most one group per host, and
      the organisation of a host never changes. */
  predicate Ordinary(c: Change, t: Table)
    requires Legal(c, t)
  {
    && (!c.Remove? ==> |c.row.groups| <= 1)
    && (c.Update? ==> c.row.org == t[c.id].org)
  }

  predicate OrdinaryStep(db: Db, step: Step) {
    step.Flush? && LegalFlush(step.changes, db.working) ==>
      forall c :: c in step.changes ==> Ordinary(c, db.working)
  }

  predicate Reported(pending: seq<Op>, id: HostId, org: OrgId) {
    Op(Created, id, org) in pending || Op(Updated, id, org) in pending
  }

  predicate DeletePending(pending: seq<Op>, id: HostId) {
    exists op :: op in pending && op.kind == Deleted && op.id == id
  }

  /** A host the transaction has not touched visibly. */
  predicate Untouched(db: Db, id: HostId)
    requires id in db.working
  {
    && id in db.committed
    && db.committed[id].org == db.working[id].org
    && ViewOf(db.committed[id]) == ViewOf(db.working[id])
    && !DeletePending(db.pending, id)
  }

  ghost predicate TxnInv(db: Db) {
    && Distinct(db.pending)
    && (forall id :: id in db.committed ==> |db.committed[id].groups| <= 1)
    && (forall id :: id in db.working ==> |db.working[id].groups| <= 1)
    && (forall id :: id in db.working ==> Reported(db.pending, id, db.working[id].org) || Untouched(db, id))
    && (forall id :: id in db.committed && id !in db.working ==> DeletePending(db.pending, id))
  }

  lemma FlushKeepsTouched(db: Db, changes: seq<Change>, id: HostId)
    requires TxnInv(db) && LegalFlush(changes, db.working) && OrdinaryStep(db, Flush(changes))
    requires exists c :: c in changes && c.id == id
    ensures var db' := Next(db, Flush(changes));
            if id in db'.working then
              |db'.working[id].groups| <= 1
              && (Reported(db'.pending, id, db'.working[id].org) || Untouched(db', id))
            else id in db.committed ==> DeletePending(db'.pending, id)
  {
    var db' := Next(db, Flush(changes));
    FlushTracks(db, changes);
    ApplyAllAt(changes, db.working, id);
    var c :| c in changes && c.id == id;
    assert Legal(c, db.working) && Ordinary(c, db.working);
    assert Effect(c, id, db'.working);
    if OpOf(c, db.working).Some? {
      assert OpOf(c, db.working).value in db'.pending;
    } else {
      if ViewOf(db.working[id]) != ViewOf(c.row) { DetectionComplete(db.working[id], c.row); }
      OnlyOneChange(changes, db.working, c);
    }
  }

  lemma FlushKeepsOther(db: Db, changes: seq<Change>, id: HostId)
    requires TxnInv(db) && LegalFlush(changes, db.working)
    requires forall c :: c in changes ==> c.id != id
    ensures var db' := Next(db, Flush(changes));
            if id in db'.working then
              |db'.working[id].groups| <= 1
              && (Reported(db'.pending, id, db'.working[id].org) || Untouched(db', id))
            else id in db.committed ==> DeletePending(db'.pending, id)
  {
    FlushTracks(db, changes);
    ApplyAllAt(changes, db.working, id);
  }

  lemma FlushKeepsTxnInv(db: Db, changes: seq<Change>)
    requires TxnInv(db) && LegalFlush(changes, db.working) && OrdinaryStep(db, Flush(changes))
    ensures TxnInv(Next(db, Flush(changes)))
  {
    var db' := Next(db, Flush(changes));
    FlushTracks(db, changes);
    forall id
      ensures if id in db'.working then
                |db'.working[id].groups| <= 1
                && (Reported(db'.pending, id, db'.working[id].org) || Untouched(db', id))
              else id in db.committed ==> DeletePending(db'.pending, id)
    {
      if exists c :: c in changes && c.id == id {
        FlushKeepsTouched(db, changes, id);
      } else {
        FlushKeepsOther(db, changes, id);
      }
    }
  }

  /** A change of which nothing is tracked is the only one naming its host. */
  lemma OnlyOneChange(changes: seq<Change>, t: Table, c: Change)
    requires LegalFlush(changes, t) && c in changes && OpOf(c, t).None?
    ensures forall d :: d in changes && OpOf(d, t).Some? ==> OpOf(d, t).value.id != c.id
  {
    var i :| 0 <= i < |changes| && changes[i] == c;
    forall d | d in changes && OpOf(d, t).Some? ensures OpOf(d, t).value.id != c.id {
      var j :| 0 <= j < |changes| && changes[j] == d;
      assert i != j;
    }
  }

  lemma StepKeepsTxnInv(db: Db, step: Step)
    requires TxnInv(db) && OrdinaryStep(db, step)
    ensures TxnInv(Next(db, step))
  {
    if step.Flush? && LegalFlush(step.changes, db.working) {
      FlushKeepsTxnInv(db, step.changes);
    }
  }

  /* ---------- one commit, exactly ---------- */

  lemma {:induction false} LastEffectNone(ops: seq<Op>, t: Table, id: HostId)
    requires LastEffect(ops, t, id).None?
    ensures !DeletePending(ops, id) && (id in t ==> !Reported(ops, id, t[id].org))
    decreases |ops|
  {
    if ops != [] {
      var front := ops[..|ops| - 1];
      LastEffectNone(front, t, id);
      assert ops == front + [ops[|ops| - 1]];
    }
  }

  lemma {:induction false} LastEffectOccurs(ops: seq<Op>, t: Table, id: HostId)
    requires LastEffect(ops, t, id).Some?
    ensures LastEffect(ops, t, id) == Some(Deleted) ==> DeletePending(ops, id)
    ensures LastEffect(ops, t, id) != Some(Deleted) ==> id in t
    decreases |ops|
  {
    var op := ops[|ops| - 1];
    if !(op.id == id && (op.kind == Deleted || Found(op, t, {op.org}))) {
      LastEffectOccurs(ops[..|ops| - 1], t, id);
    }
  }

  /** What a caller can look up about a host before a commit: a stored one is reported
      last, or has no operation and the payload it had; one no longer stored is deleted
      last. */
  predicate HostInStep(db: Db, id: HostId) {
    match LastEffect(db.pending, db.working, id)
    case None =>
      if id in db.working then id in db.committed && ViewOf(db.committed[id]) == ViewOf(db.working[id]) else id !in db.committed
    case Some(Deleted) => id !in db.working
    case Some(_) => true
  }

  /** What replaying one commit's entries leaves of one host. */
  lemma CommitAt(db: Db, id: HostId)
    ensures var out := Replay(Views(db.committed), Emit(db.pending, db.working));
            HostInStep(db, id) <==>
              (id in out <==> id in db.working) && (id in db.working && id in out ==> out[id] == ViewOf(db.working[id]))
  {
    ReplayEmitted(Views(db.committed), db.pending, db.working, id);
  }

  ghost predicate InStep(db: Db) {
    forall id :: HostInStep(db, id)
  }

  /** A commit keeps the replica in step exactly when every host is, whatever changes led
      to it. */
  lemma CommitAgreesIff(db: Db)
    requires Agrees(db) && Emittable(db.pending, db.working)
    ensures Agrees(Next(db, Commit)) <==> InStep(db)
  {
    var out := Replay(Views(db.committed), Emit(db.pending, db.working));
    ReplayAppend(map[], db.log, Emit(db.pending, db.working));
    assert Replay(map[], Next(db, Commit).log) == out;
    forall id
      ensures HostInStep(db, id) <==>
        (id in out <==> id in db.working) && (id in db.working && id in out ==> out[id] == ViewOf(db.working[id]))
    {
      CommitAt(db, id);
    }
    hide LastEffect, Emit, Replay, ViewOf, HostInStep;
    AgreesAt(out, db.working);
  }

  lemma AgreesAt(out: Replica, t: Table)
    ensures out == Views(t) <==>
      forall id :: (id in out <==> id in t) && (id in t && id in out ==> out[id] == ViewOf(t[id]))
  {
    hide ViewOf;
    if forall id :: (id in out <==> id in t) && (id in t && id in out ==> out[id] == ViewOf(t[id])) {
      assert out.Keys == Views(t).Keys;
    }
  }

  /** With one group per host and fixed organisations only a deletion can be out of step. */
  lemma InStepIff(db: Db)
    requires TxnInv(db)
    ensures InStep(db) <==> CleanCommit(db)
  {
    forall id ensures HostInStep(db, id) <==> (id in db.working ==> LastEffect(db.pending, db.working, id) != Some(Deleted)) {
      if LastEffect(db.pending, db.working, id).None? {
        LastEffectNone(db.pending, db.working, id);
      } else {
        LastEffectOccurs(db.pending, db.working, id);
      }
    }
    if InStep(db) {
      forall id | id in db.working ensures LastEffect(db.pending, db.working, id) != Some(Deleted) {
        assert HostInStep(db, id);
      }
    }
  }

  /* ---------- whole runs ---------- */

  ghost predicate OrdinaryRun(steps: seq<Step>)
    decreases |steps|
  {
    steps == [] ||
    var front := steps[..|steps| - 1];
    OrdinaryRun(front) && OrdinaryStep(Run(EMPTY, front), steps[|steps| - 1])
  }

  /** What a caller can look up before a commit: no stored host has a deletion as the
      last of its pending operations. */
  predicate CleanCommit(db: Db) {
    forall id :: id in db.working ==> LastEffect(db.pending, db.working, id) != Some(Deleted)
  }

  /** Every commit of the run that goes through was clean. */
  ghost predicate CleanCommits(steps: seq<Step>)
    decreases |steps|
  {
    steps == [] ||
    var front := steps[..|steps| - 1];
    var db := Run(EMPTY, front);
    CleanCommits(front) && (steps[|steps| - 1].Commit? && Emittable(db.pending, db.working) ==> CleanCommit(db))
  }

  /** The log replays to the committed hosts after every step of the run. */
  ghost predicate AlwaysAgrees(steps: seq<Step>)
    decreases |steps|
  {
    Agrees(Run(EMPTY, steps)) && (steps == [] || AlwaysAgrees(steps[..|steps| - 1]))
  }

  /** Every commit of the run that goes through has all hosts in step. */
  ghost predicate CommitsInStep(steps: seq<Step>)
    decreases |steps|
  {
    steps == [] ||
    var front := steps[..|steps| - 1];
    var db := Run(EMPTY, front);
    CommitsInStep(front) && (steps[|steps| - 1].Commit? && Emittable(db.pending, db.working) ==> InStep(db))
  }

  /** Over any run, with whatever changes, the log and the hosts agree throughout exactly
      when every commit has all hosts in step. */
  lemma {:induction false} ReplicationIff(steps: seq<Step>)
    ensures AlwaysAgrees(steps) <==> CommitsInStep(steps)
    decreases |steps|
  {
    if steps != [] {
      var front := steps[..|steps| - 1];
      var step := steps[|steps| - 1];
      var db := Run(EMPTY, front);
      ReplicationIff(front);
      hide InStep, Emit;
      if step.Commit? && Emittable(db.pending, db.working) && Agrees(db) {
        CommitAgreesIff(db);
      }
    }
  }

  /** On runs of the changes the service makes, that is when every commit is clean. */
  lemma {:induction false} OrdinaryReplicationIff(steps: seq<Step>)
    requires OrdinaryRun(steps)
    ensures TxnInv(Run(EMPTY, steps))
    ensures CommitsInStep(steps) <==> CleanCommits(steps)
    decreases |steps|
  {
    if steps != [] {
      var front := steps[..|steps| - 1];
      var db := Run(EMPTY, front);
      OrdinaryReplicationIff(front);
      StepKeepsTxnInv(db, steps[|steps| - 1]);
      hide InStep, CleanCommit;
      InStepIff(db);
    }
  }

  /** The guard a caller can check before a flush: it inserts no host whose
      deletion is still pending in the same transaction. */
  predicate NoResurrection(db: Db, step: Step) {
    step.Flush? ==> forall c :: c in step.changes && c.Insert? ==> !DeletePending(db.pending, c.id)
  }

  ghost predicate GoodRun(steps: seq<Step>)
    decreases |steps|
  {
    steps == [] ||
    var front := steps[..|steps| - 1];
    var last := steps[|steps| - 1];
    GoodRun(front) && OrdinaryStep(Run(EMPTY, front), last) && NoResurrection(Run(EMPTY, front), last)
  }

  predicate NoLiveDelete(db: Db) {
    forall id :: id in db.working ==> !DeletePending(db.pending, id)
  }

  lemma FlushKeepsNoLiveDelete(db: Db, changes: seq<Change>)
    requires NoLiveDelete(db) && LegalFlush(changes, db.working) && NoResurrection(db, Flush(changes))
    ensures NoLiveDelete(Next(db, Flush(changes)))
  {
    var db' := Next(db, Flush(changes));
    FlushTracks(db, changes);
    forall op | op in db'.pending && op.kind == Deleted && op !in db.pending ensures op.id !in db'.working {
      var c :| c in changes && OpOf(c, db.working) == Some(op);
      ApplyAllAt(changes, db.working, op.id);
      assert Effect(c, op.id, db'.working);
    }
    forall id | id in db'.working ensures !DeletePending(db.pending, id) {
      ApplyAllAt(changes, db.working, id);
      if c :| c in changes && c.id == id {
        assert Effect(c, id, db'.working);
      }
    }
  }

  /** Hosts never re-created within the transaction that deleted them keep every
      commit clean. */
  lemma {:induction false} GoodRunIsClean(steps: seq<Step>)
    requires GoodRun(steps)
    ensures OrdinaryRun(steps) && CleanCommits(steps) && NoLiveDelete(Run(EMPTY, steps))
    decreases |steps|
  {
    if steps != [] {
      var front := steps[..|steps| - 1];
      var step := steps[|steps| - 1];
      var db := Run(EMPTY, front);
      GoodRunIsClean(front);
      forall id | id in db.working ensures LastEffect(db.pending, db.working, id) != Some(Deleted) {
        if LastEffect(db.pending, db.working, id).Some? {
          LastEffectOccurs(db.pending, db.working, id);
        }
      }
      if step.Flush? && LegalFlush(step.changes, db.working) {
        FlushKeepsNoLiveDelete(db, step.changes);
      } else {
        assert Next(db, step).pending == [];
      }
    }
  }

  /** So on those runs replaying the log always gives exactly the tracked fields of
      exactly the committed hosts. */
  lemma ReplicationTheorem(steps: seq<Step>)
    requires GoodRun(steps)
    ensures AlwaysAgrees(steps)
    ensures var db := Run(EMPTY, steps);
            var replica := Replay(map[], db.log);
            forall id :: (id in replica <==> id in db.committed)
              && (id in db.committed && id in replica ==> Shows(replica[id], db.committed[id]))
    ensures TxnInv(Run(EMPTY, steps)) && NoLiveDelete(Run(EMPTY, steps))
  {
    GoodRunIsClean(steps);
    OrdinaryReplicationIff(steps);
    ReplicationIff(steps);
    AgreesIff(Run(EMPTY, steps));
    hide Replay, Shows, Run;
  }

  /** The entries of a creation followed by a deletion of a host that is stored
      again delete it in the end. */
  lemma CreatedThenDeleted(id: HostId, h: Host)
    ensures var ops, t := [Op(Created, id, h.org), Op(Deleted, id, h.org)], map[id := h];
            Emit(ops, t) == [ReportResource(id, ViewOf(h)), DeleteResource(id)]
            && Replay(map[], Emit(ops, t)) == map[]
  {
    var ops, t := [Op(Created, id, h.org), Op(Deleted, id, h.org)], map[id := h];
    assert ops[..1] == [ops[0]] && [ops[0]][..0] == [];
    assert Emit([ops[0]], t) == [] + [ReportResource(id, ViewOf(h))];
    var e := [ReportResource(id, ViewOf(h)), DeleteResource(id)];
    assert e[..1] == [e[0]] && [e[0]][..0] == [];
    assert Replay(map[], [e[0]]) == map[id := ViewOf(h)];
  }

  /** Without the guard the log can lose a host: created, deleted and created
      again in one transaction, the second creation is taken for the first. */
  lemma ResurrectionLosesHost(id: HostId, h: Host)
    requires PayloadBuilds(h)
    ensures var create, delete := Flush([Insert(id, h)]), Flush([Remove(id)]);
            var db := Next(Next(Next(Next(EMPTY, create), delete), create), Commit);
            db.committed == map[id := h] && Replay(map[], db.log) == map[]
  {
    hide Next, Emit, Replay;
    var ops, t := [Op(Created, id, h.org), Op(Deleted, id, h.org)], map[id := h];
    ThreeFlushes(id, h);
    CommitOf(ops, t);
    CreatedThenDeleted(id, h);
  }

  lemma CommitOf(ops: seq<Op>, t: Table)
    requires Emittable(ops, t)
    ensures Next(Db(map[], t, ops, []), Commit) == Db(t, t, [], Emit(ops, t))
  {
    assert [] + Emit(ops, t) == Emit(ops, t);
  }

  lemma ThreeFlushes(id: HostId, h: Host)
    ensures var i, r := Flush([Insert(id, h)]), Flush([Remove(id)]);
            Next(Next(Next(EMPTY, i), r), i)
              == Db(map[], map[id := h], [Op(Created, id, h.org), Op(Deleted, id, h.org)], [])
  {
    var c, d := Op(Created, id, h.org), Op(Deleted, id, h.org);
    var db1 := Db(map[], map[id := h], [c], []);
    var db2 := Db(map[], map[], [c, d], []);
    hide Next;
    OneChange(EMPTY, Insert(id, h));
    OneChange(db1, Remove(id));
    OneChange(db2, Insert(id, h));
    assert [] + [c] == [c] && [c] + [d] == [c, d];
    assert map[id := h] - {id} == map[];
  }

  /** The effect of a flush of a single insertion or deletion. */
  lemma OneChange(db: Db, c: Change)
    requires Legal(c, db.working) && !c.Update?
    ensures Next(db, Flush([c])) == db.(working := Apply(c, db.working),
                                        pending := Track(db.pending, OpOf(c, db.working).value))
  {
    assert [c][..0] == [];
    assert [c][0] == c;
    assert Ops([c], db.working, true) == [];
    assert LegalFlush([c], db.working);
    assert ApplyAll([c], db.working) == Apply(c, db.working);
    var op := OpOf(c, db.working).value;
    assert Ops([c], db.working, false) == [] + [op];
    assert [op][..0] == [];
    assert TrackAll(db.pending, [op]) == Track(db.pending, op);
  }
}
