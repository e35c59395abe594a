/** The session as the listeners see it: mutable pending operations, the two
    ways of writing the outbox, and the proof that each step is a step of the
    transition system of OutboxProtocol. */
module OutboxSession {
  import opened Common
  import opened OutboxProtocol
  import opened OutboxReplication

  /* ---------- the batched path, as a function ---------- */

  /** An operation with its host resolved from the pre-fetched hosts. */
  datatype BatchOp = BatchOp(kind: Kind, id: HostId, host: Option<Host>)

  /** The organisations of the operations that need their host. */
  function BatchOrgs(ops: seq<Op>): set<OrgId> {
    set op | op in ops && op.kind != Deleted :: op.org
  }

  function BatchOps(ops: seq<Op>, t: Table, orgs: set<OrgId>): seq<BatchOp>
    decreases |ops|
  {
    if ops == [] then []
    else
      var op := ops[|ops| - 1];
      BatchOps(ops[..|ops| - 1], t, orgs)
        + if op.kind == Deleted then [BatchOp(Deleted, op.id, None)]
          else if Found(op, t, orgs) then [BatchOp(op.kind, op.id, Some(t[op.id]))]
          else []
  }

  predicate Buildable(b: BatchOp) {
    b.kind != Deleted ==> b.host.Some? && PayloadBuilds(b.host.value)
  }

  function Build(b: BatchOp): Entry
    requires Buildable(b)
  {
    if b.kind == Deleted then DeleteResource(b.id) else ReportResource(b.id, ViewOf(b.host.value))
  }

  function BuildAll(bs: seq<BatchOp>): seq<Entry>
    requires forall b :: b in bs ==> Buildable(b)
  {
    seq(|bs|, i requires 0 <= i < |bs| => Build(bs[i]))
  }

  /** No pending report names a host that is stored under another organisation
      of the same batch. */
  predicate OrgsAgree(ops: seq<Op>, t: Table, orgs: set<OrgId>) {
    forall op :: op in ops && op.kind != Deleted && Found(op, t, orgs) ==> t[op.id].org == op.org
  }

  /** `b` is what becomes of `op`. */
  predicate Resolves(op: Op, b: BatchOp, t: Table, orgs: set<OrgId>) {
    b == if op.kind == Deleted then BatchOp(Deleted, op.id, None)
         else if Found(op, t, orgs) then BatchOp(op.kind, op.id, Some(t[op.id]))
         else BatchOp(op.kind, op.id, None)
  }

  predicate Dropped(op: Op, t: Table, orgs: set<OrgId>) {
    op.kind != Deleted && !Found(op, t, orgs)
  }

  lemma {:induction false} BatchMembers(ops: seq<Op>, t: Table, orgs: set<OrgId>)
    ensures forall op :: op in ops && !Dropped(op, t, orgs) ==>
              exists b :: b in BatchOps(ops, t, orgs) && Resolves(op, b, t, orgs)
    ensures forall b :: b in BatchOps(ops, t, orgs) ==>
              exists op :: op in ops && !Dropped(op, t, orgs) && Resolves(op, b, t, orgs)
    decreases |ops|
  {
    if ops != [] {
      var front := ops[..|ops| - 1];
      var last := ops[|ops| - 1];
      assert ops == front + [last];
      BatchMembers(front, t, orgs);
      var shorter, all := BatchOps(front, t, orgs), BatchOps(ops, t, orgs);
      assert forall b :: b in shorter ==> b in all;
      if !Dropped(last, t, orgs) {
        var b := all[|all| - 1];
        assert all == shorter + [b] && Resolves(last, b, t, orgs);
      } else {
        assert all == shorter;
      }
    }
  }

  /** Every batch entry builds. */
  predicate BatchBuilds(ops: seq<Op>, t: Table) {
    forall b :: b in BatchOps(ops, t, BatchOrgs(ops)) ==> Buildable(b)
  }

  /** The batched path completes exactly when the payload of every host it has fetched
      for an operation builds; where the organisations agree that is when the per-item
      path completes. */
  lemma BatchBuildsIff(ops: seq<Op>, t: Table)
    ensures BatchBuilds(ops, t)
       <==> forall op :: op in ops && op.kind != Deleted && Found(op, t, BatchOrgs(ops)) ==> PayloadBuilds(t[op.id])
    ensures OrgsAgree(ops, t, BatchOrgs(ops)) ==> (BatchBuilds(ops, t) <==> Emittable(ops, t))
  {
    var orgs := BatchOrgs(ops);
    hide BatchOps, BatchOrgs;
    BatchMembers(ops, t, orgs);
    if BatchBuilds(ops, t) {
      forall op | op in ops && op.kind != Deleted && Found(op, t, orgs) ensures PayloadBuilds(t[op.id]) {
        var b :| b in BatchOps(ops, t, orgs) && Resolves(op, b, t, orgs);
        assert Buildable(b);
      }
    }
    if OrgsAgree(ops, t, orgs) {
      SameFoundWhereOrgsAgree(ops, t);
    }
  }

  lemma SameFoundWhereOrgsAgree(ops: seq<Op>, t: Table)
    requires OrgsAgree(ops, t, BatchOrgs(ops))
    ensures forall op :: op in ops && op.kind != Deleted ==> (Found(op, t, BatchOrgs(ops)) <==> Found(op, t, {op.org}))
  {
    forall op | op in ops && op.kind != Deleted ensures op.org in BatchOrgs(ops) {
    }
  }

  lemma {:induction false} BatchEntries(ops: seq<Op>, t: Table, orgs: set<OrgId>)
    requires BatchOrgs(ops) <= orgs
    requires forall b :: b in BatchOps(ops, t, orgs) ==> Buildable(b)
    ensures OrgsAgree(ops, t, orgs) ==> BuildAll(BatchOps(ops, t, orgs)) == Emit(ops, t)
    ensures |BatchOps(ops, t, orgs)| >= |Emit(ops, t)|
    ensures !OrgsAgree(ops, t, orgs) ==> |BatchOps(ops, t, orgs)| > |Emit(ops, t)|
    decreases |ops|
  {
    if ops != [] {
      var front := ops[..|ops| - 1];
      var op := ops[|ops| - 1];
      assert ops == front + [op];
      assert op.kind != Deleted ==> op.org in BatchOrgs(ops);
      assert BatchOrgs(front) <= BatchOrgs(ops);
      assert forall b :: b in BatchOps(front, t, orgs) ==> b in BatchOps(ops, t, orgs);
      BatchEntries(front, t, orgs);
    }
  }

  /** The batched path emits what the per-item path emits exactly when no
      pending report names a host stored under another organisation of the batch. */
  lemma BatchedPathRefinesIff(ops: seq<Op>, t: Table)
    requires BatchBuilds(ops, t)
    ensures BuildAll(BatchOps(ops, t, BatchOrgs(ops))) == Emit(ops, t) <==> OrgsAgree(ops, t, BatchOrgs(ops))
  {
    BatchEntries(ops, t, BatchOrgs(ops));
  }

  /** Operations on stored hosts all carry the organisation of their host. */
  predicate OpsMatchHosts(db: Db) {
    forall op :: op in db.pending && op.kind != Deleted && op.id in db.working ==> db.working[op.id].org == op.org
  }

  /** So the paths agree throughout every good run. */
  lemma {:induction false} PathsAgreeOnRuns(steps: seq<Step>)
    requires GoodRun(steps)
    ensures OpsMatchHosts(Run(EMPTY, steps))
    decreases |steps|
  {
    if steps != [] {
      var front := steps[..|steps| - 1];
      var step := steps[|steps| - 1];
      var db := Run(EMPTY, front);
      PathsAgreeOnRuns(front);
      ReplicationTheorem(front);
      if step.Flush? && LegalFlush(step.changes, db.working) {
        GoneAreDeletedOnRuns(front);
        FlushKeepsMatch(db, step.changes);
      } else {
        assert Next(db, step).pending == [];
      }
    }
  }

  /** Every pending report of a host that is gone has a pending deletion beside it. */
  predicate GoneAreDeleted(db: Db) {
    forall op :: op in db.pending && op.kind != Deleted && op.id !in db.working ==> DeletePending(db.pending, op.id)
  }

  lemma {:induction false} GoneAreDeletedOnRuns(steps: seq<Step>)
    requires GoodRun(steps)
    ensures GoneAreDeleted(Run(EMPTY, steps))
    decreases |steps|
  {
    if steps != [] {
      var front := steps[..|steps| - 1];
      var step := steps[|steps| - 1];
      var db := Run(EMPTY, front);
      GoneAreDeletedOnRuns(front);
      if step.Flush? && LegalFlush(step.changes, db.working) {
        var db' := Next(db, step);
        FlushTracks(db, step.changes);
        forall op | op in db'.pending && op.kind != Deleted && op !in db.pending ensures op.id in db'.working {
          ApplyAllAt(step.changes, db.working, op.id);
          var c :| c in step.changes && OpOf(c, db.working) == Some(op);
          assert Effect(c, op.id, db'.working);
        }
        forall op | op in db'.pending && op.kind != Deleted && op.id !in db'.working
          ensures DeletePending(db'.pending, op.id)
        {
          ApplyAllAt(step.changes, db.working, op.id);
          if op.id in db.working {
            var c :| c in step.changes && c.id == op.id;
            assert Effect(c, op.id, db'.working);
            assert OpOf(c, db.working).value in db'.pending;
          }
        }
      } else {
        assert Next(db, step).pending == [];
      }
    }
  }

  lemma FlushKeepsMatch(db: Db, changes: seq<Change>)
    requires OpsMatchHosts(db) && GoneAreDeleted(db) && LegalFlush(changes, db.working)
    requires OrdinaryStep(db, Flush(changes)) && NoResurrection(db, Flush(changes))
    ensures OpsMatchHosts(Next(db, Flush(changes)))
  {
    var db' := Next(db, Flush(changes));
    FlushTracks(db, changes);
    forall op | op in db'.pending && op.kind != Deleted && op !in db.pending && op.id in db'.working
      ensures db'.working[op.id].org == op.org
    {
      var d :| d in changes && OpOf(d, db.working) == Some(op);
      ApplyAllAt(changes, db.working, op.id);
      assert Effect(d, op.id, db'.working);
    }
    forall op | op in db.pending && op.kind != Deleted && op.id in db'.working
      ensures db'.working[op.id].org == op.org
    {
      ApplyAllAt(changes, db.working, op.id);
      if c :| c in changes && c.id == op.id {
        assert Effect(c, op.id, db'.working) && Ordinary(c, db.working);
        assert !c.Insert?;
      }
    }
  }

  /* ---------- composing prefixes ---------- */

  lemma {:induction false} TrackAllSnoc(pending: seq<Op>, ops: seq<Op>, op: Op)
    ensures TrackAll(pending, ops + [op]) == Track(TrackAll(pending, ops), op)
  {
    assert (ops + [op])[..|ops|] == ops;
  }

  lemma OpsSnoc(changes: seq<Change>, t: Table, dirtyOnly: bool, i: nat)
    requires i < |changes| && forall c :: c in changes ==> Legal(c, t)
    ensures var c := changes[i];
            Legal(c, t) &&
            Ops(changes[..i + 1], t, dirtyOnly)
              == Ops(changes[..i], t, dirtyOnly)
                   + if (dirtyOnly ==> c.Update?) && OpOf(c, t).Some? then [OpOf(c, t).value] else []
  {
    Snoc(changes, i);
    assert changes[i] in changes;
  }

  /** One change of a unit of work: it finds its host as the flush found it. */
  lemma UnitStep(changes: seq<Change>, before: Table, p: seq<Op>, i: nat)
    requires i < |changes| && LegalFlush(changes, before)
    ensures var c, now := changes[i], ApplyAll(changes[..i], before);
            && Legal(c, before) && Legal(c, now)
            && (!c.Insert? ==> now[c.id] == before[c.id])
            && ApplyAll(changes[..i + 1], before) == Apply(c, now)
            && TrackAll(p, Ops(changes[..i + 1], before, false))
                 == var q := TrackAll(p, Ops(changes[..i], before, false));
                    if OpOf(c, before).Some? then Track(q, OpOf(c, before).value) else q
  {
    var c := changes[i];
    OpsSnoc(changes, before, false, i);
    Snoc(changes, i);
    assert forall d :: d in changes[..i] ==> d.id != c.id;
    ApplyAllAt(changes[..i], before, c.id);
    if OpOf(c, before).Some? {
      TrackAllSnoc(p, Ops(changes[..i], before, false), OpOf(c, before).value);
    } else {
      assert Ops(changes[..i + 1], before, false) == Ops(changes[..i], before, false);
    }
  }

  /** The table after a flush, host by host. */
  lemma FlushedTable(changes: seq<Change>, before: Table)
    requires LegalFlush(changes, before)
    ensures var after := ApplyAll(changes, before);
            && (forall c :: c in changes ==> if c.Remove? then c.id !in after else c.id in after && after[c.id] == c.row)
            && forall id :: (forall c :: c in changes ==> c.id != id) ==>
                 (id in after <==> id in before) && (id in after && id in before ==> after[id] == before[id])
  {
    var after := ApplyAll(changes, before);
    forall c | c in changes ensures if c.Remove? then c.id !in after else c.id in after && after[c.id] == c.row {
      ApplyAllAt(changes, before, c.id);
      hide ApplyAll;
      assert Effect(c, c.id, after);
    }
    forall id | forall c :: c in changes ==> c.id != id
      ensures (id in after <==> id in before) && (id in after && id in before ==> after[id] == before[id])
    {
      ApplyAllAt(changes, before, id);
    }
  }

  /** A pending operation whose host is read for it but has a first group without an id. */
  predicate Unreportable(op: Op, ops: seq<Op>, t: Table, batched: bool) {
    && op.kind != Deleted && op.id in t && |t[op.id].groups| > 0 && t[op.id].groups[0].id.None?
    && if batched then exists o :: o in ops && o.kind != Deleted && o.org == t[op.id].org else op.org == t[op.id].org
  }

  lemma CompletesIff(ops: seq<Op>, t: Table)
    ensures Emittable(ops, t) <==> forall op :: op in ops ==> !Unreportable(op, ops, t, false)
    ensures BatchBuilds(ops, t) <==> forall op :: op in ops ==> !Unreportable(op, ops, t, true)
  {
    BatchBuildsIff(ops, t);
    hide BatchBuilds, OrgsAgree;
    forall op | op in ops && op.kind != Deleted && op.id in t
      ensures Found(op, t, BatchOrgs(ops)) <==> exists o :: o in ops && o.kind != Deleted && o.org == t[op.id].org
    {
    }
  }

  /* ---------- the session ---------- */

  class Session {
    var committed: Table
    var working: Table
    var pending: seq<Op>          // session.info["pending_ops"]
    var log: seq<Entry>           // what commits have published
    var outbox: map<nat, Entry>   // rows of the outbox table
    var marked: set<nat>          // outbox rows deleted but not yet flushed
    var wal: seq<Entry>           // entries written by the open transaction
    var nextId: nat               // source of fresh row ids

    ghost predicate Valid()
      reads this
    {
      && (forall k :: k in outbox ==> k < nextId)
      && marked == {} && wal == []
    }

    ghost function State(): Db
      reads this
    {
      Db(committed, working, pending, log)
    }

    constructor ()
      ensures Valid() && State() == EMPTY && outbox == map[]
    {
      committed, working, pending, log := map[], map[], [], [];
      outbox, marked, wal, nextId := map[], {}, [], 0;
    }

    method TrackOperation(kind: Kind, id: HostId, org: OrgId)
      modifies `pending
      ensures old(pending) <= pending && forall op :: op in pending <==> op in old(pending) || op == Op(kind, id, org)
      ensures Distinct(old(pending)) ==> Distinct(pending)
      ensures pending == Track(old(pending), Op(kind, id, org))
    {
      if Op(kind, id, org) !in pending {
        pending := pending + [Op(kind, id, org)];
      }
    }

    method Rollback()
      requires Valid()
      modifies this
      ensures Valid() && State() == Next(old(State()), Step.Rollback) && outbox == old(outbox)
      ensures working == committed == old(committed) && pending == [] && log == old(log)
    {
      working, pending := committed, [];
    }

    /** The before_flush listener: looks at the modified hosts only. */
    method BeforeFlush(changes: seq<Change>)
      requires forall c :: c in changes ==> Legal(c, working)
      modifies `pending
      ensures pending == TrackAll(old(pending), Ops(changes, working, true))
    {
      for i := 0 to |changes|
        invariant pending == TrackAll(old(pending), Ops(changes[..i], working, true))
      {
        var c := changes[i];
        OpsSnoc(changes, working, true, i);
        if c.Update? && RelevantChange(working[c.id], c.row) {
          TrackAllSnoc(old(pending), Ops(changes[..i], working, true), Op(Updated, c.id, c.row.org));
          TrackOperation(Updated, c.id, c.row.org);
        } else {
          assert Ops(changes[..i + 1], working, true) == Ops(changes[..i], working, true);
        }
      }
      assert changes[..|changes|] == changes;
    }

    /** The unit of work: each change is written and its own listener runs. */
    method UnitOfWork(changes: seq<Change>)
      requires LegalFlush(changes, working)
      modifies `pending, `working
      ensures working == ApplyAll(changes, old(working))
      ensures pending == TrackAll(old(pending), Ops(changes, old(working), false))
    {
      ghost var before := working;
      for i := 0 to |changes|
        invariant working == ApplyAll(changes[..i], before)
        invariant pending == TrackAll(old(pending), Ops(changes[..i], before, false))
      {
        UnitStep(changes, before, old(pending), i);
        match changes[i]
        case Insert(id, row) =>
          working := working[id := row];
          TrackOperation(Created, id, row.org);
        case Update(id, row) =>
          if RelevantChange(working[id], row) {
            TrackOperation(Updated, id, row.org);
          }
          working := working[id := row];
        case Remove(id) =>
          TrackOperation(Deleted, id, working[id].org);
          working := working - {id};
      }
      assert changes[..|changes|] == changes;
    }

    /** A flush.  A change the database rejects ends in a rollback. */
    method Flush(changes: seq<Change>) returns (ok: bool)
      requires Valid()
      modifies this
      ensures Valid() && State() == Next(old(State()), Step.Flush(changes)) && outbox == old(outbox)
      // each host is changed once, and inserted exactly if it is not stored
      ensures ok <==>
                && (forall i, j :: 0 <= i < j < |changes| ==> changes[i].id != changes[j].id)
                && forall c :: c in changes ==> (c.Insert? <==> c.id !in old(working))
      ensures ok ==> forall c :: c in changes ==>
                if c.Remove? then c.id !in working else c.id in working && working[c.id] == c.row
      ensures forall id :: (forall c :: c in changes ==> c.id != id) && ok ==>
                (id in working <==> id in old(working)) && (id in working && id in old(working) ==> working[id] == old(working)[id])
    {
      hide ApplyAll, TrackAll, Ops, RolledBack;
      ok := LegalFlush(changes, working);
      if ok {
        BeforeFlush(changes);
        UnitOfWork(changes);
        FlushedTable(changes, old(working));
      } else {
        Rollback();
      }
    }

    /** One row per entry: add it, flush, and mark it for deletion. */
    method WriteEvent(e: Entry)
      modifies `outbox, `marked, `wal, `nextId
      requires forall k :: k in outbox ==> k < nextId
      requires marked <= outbox.Keys
      ensures forall k :: k in outbox ==> k < nextId
      ensures marked <= outbox.Keys
      ensures outbox - marked == old(outbox - marked) && wal == old(wal) + [e]
    {
      var kept: map<nat, Entry> := outbox - marked;
      outbox := kept[nextId := e];
      marked := {nextId};
      nextId := nextId + 1;
      wal := wal + [e];
    }

    /** The per-item path. */
    method ProcessOpsList() returns (ok: bool)
      requires Valid()
      modifies `outbox, `marked, `wal, `nextId
      ensures ok <==> Emittable(pending, working)
      ensures ok ==> wal == Emit(pending, working) && outbox - marked == old(outbox)
      ensures forall k :: k in old(outbox) ==> k < nextId
    {
      for i := 0 to |pending|
        invariant forall k :: k in outbox ==> k < nextId
        invariant marked <= outbox.Keys && outbox - marked == old(outbox)
        invariant Emittable(pending[..i], working) && wal == Emit(pending[..i], working)
      {
        var op := pending[i];
        Snoc(pending, i);
        if op.kind == Deleted {
          WriteEvent(DeleteResource(op.id));
        } else if op.id in working && working[op.id].org == op.org {
          var host := working[op.id];
          if !PayloadBuilds(host) {
            assert forall k :: k in old(outbox) ==> k in outbox - marked;
            return false;
          }
          WriteEvent(ReportResource(op.id, ViewOf(host)));
        }
        assert Emittable(pending[..i + 1], working);
      }
      assert pending[..|pending|] == pending;
      assert forall k :: k in old(outbox) ==> k in outbox - marked;
      ok := true;
    }

    /** Phases 1 and 2 of the batched path: one query for all hosts, then each
        operation gets its host or is dropped. */
    method ResolveHosts() returns (batch: seq<BatchOp>)
      ensures batch == BatchOps(pending, working, BatchOrgs(pending))
    {
      var orgs := BatchOrgs(pending);
      var ids := set op | op in pending && op.kind != Deleted :: op.id;
      var hostsById := map id | id in working && id in ids && working[id].org in orgs :: working[id];
      batch := [];
      for i := 0 to |pending|
        invariant batch == BatchOps(pending[..i], working, orgs)
      {
        var op := pending[i];
        Snoc(pending, i);
        if op.kind == Deleted {
          batch := batch + [BatchOp(Deleted, op.id, None)];
        } else if op.id in hostsById {
          batch := batch + [BatchOp(op.kind, op.id, Some(hostsById[op.id]))];
        }
      }
      assert pending[..|pending|] == pending;
    }

    /** Phase 3: one multi-row insert and one bulk delete of the same rows. */
    method WriteEventsBatch(batch: seq<BatchOp>) returns (ok: bool)
      requires forall k :: k in outbox ==> k < nextId
      modifies `outbox, `wal, `nextId
      ensures ok <==> forall b :: b in batch ==> Buildable(b)
      ensures ok ==> wal == old(wal) + BuildAll(batch)
      ensures outbox == old(outbox) && nextId >= old(nextId)
    {
      var values: seq<Entry> := [];
      var rows: map<nat, Entry> := map[];
      for i := 0 to |batch|
        invariant forall j :: 0 <= j < i ==> Buildable(batch[j])
        invariant unchanged(`outbox, `wal)
        invariant |values| == i && forall j :: 0 <= j < i ==> values[j] == Build(batch[j])
        invariant old(nextId) <= nextId && forall k :: k in rows ==> old(nextId) <= k < nextId
      {
        if !Buildable(batch[i]) {
          return false;
        }
        values := values + [Build(batch[i])];
        rows, nextId := rows[nextId := Build(batch[i])], nextId + 1;
      }
      assert values == BuildAll(batch);
      outbox, wal := outbox + rows, wal + values;
      outbox := outbox - rows.Keys;
      assert outbox == old(outbox);
      ok := true;
    }

    method ProcessOpsBatched() returns (ok: bool)
      requires Valid()
      modifies `outbox, `wal, `nextId
      ensures ok <==> BatchBuilds(pending, working)
      ensures ok ==> wal == BuildAll(BatchOps(pending, working, BatchOrgs(pending)))
      ensures outbox == old(outbox) && nextId >= old(nextId)
    {
      var batch := ResolveHosts();
      ok := WriteEventsBatch(batch);
      if ok {
        assert [] + BuildAll(batch) == BuildAll(batch);
      }
    }

    /** before_commit, the commit itself, after_commit; an outbox failure rolls
        everything back, the outbox table included. Per item, and in a batch where the
        organisations agree, it is a commit of the transition system. */
    method Commit(batched: bool) returns (ok: bool)
      requires Valid()
      modifies this
      ensures Valid() && outbox == old(outbox)
      ensures ok <==> if batched then BatchBuilds(old(pending), old(working)) else Emittable(old(pending), old(working))
      ensures ok <==> forall op :: op in old(pending) ==> !Unreportable(op, old(pending), old(working), batched)
      ensures ok && batched ==>
        var entries := BuildAll(BatchOps(old(pending), old(working), BatchOrgs(old(pending))));
        State() == Db(old(working), old(working), [], old(log) + entries)
      // what is published shows the hosts as they are committed
      ensures ok ==> |old(log)| <= |log| && log[..|old(log)|] == old(log)
      ensures ok ==> forall e :: e in log[|old(log)|..] ==> StandsForOne(e, old(pending), old(working))
      ensures ok ==> working == committed == old(working) && pending == []
      ensures !ok ==> working == committed == old(committed) && pending == [] && log == old(log)
      ensures !batched || OrgsAgree(old(pending), old(working), BatchOrgs(old(pending))) ==>
        State() == Next(old(State()), Step.Commit)
    {
      hide BatchOps, BatchOrgs, Emit, BatchBuilds, OrgsAgree, BuildAll, StandsForOne, Emittable, Unreportable;
      ok := true;
      var rows := outbox;
      NothingToWrite(working);
      CompletesIff(pending, working);
      if pending != [] {
        if batched {
          CommitsAlike(pending, working);
          ok := ProcessOpsBatched();
          assert outbox - marked == rows;
        } else {
          ok := ProcessOpsList();
        }
      }
      if !ok {
        outbox, marked, wal := rows, {}, [];
        Rollback();
        return;
      }
      outbox, marked := outbox - marked, {};
      assert outbox == rows;
      if batched {
        BatchStandsFor(pending, working);
      } else {
        EntriesStandForOps(pending, working);
      }
      assert (log + wal)[|log|..] == wal;
      committed, log, wal, pending := working, log + wal, [], [];
    }
  }

  lemma {:induction false} BatchStandsForOps(ops: seq<Op>, t: Table, orgs: set<OrgId>)
    requires forall b :: b in BatchOps(ops, t, orgs) ==> Buildable(b)
    ensures forall e :: e in BuildAll(BatchOps(ops, t, orgs)) ==> StandsForOne(e, ops, t)
  {
    var batch := BatchOps(ops, t, orgs);
    BatchMembers(ops, t, orgs);
    hide BatchOps;
    forall e | e in BuildAll(batch) ensures StandsForOne(e, ops, t) {
      var i :| 0 <= i < |batch| && BuildAll(batch)[i] == e;
      assert batch[i] in batch;
      var op :| op in ops && !Dropped(op, t, orgs) && Resolves(op, batch[i], t, orgs);
      assert e == EntryFor(op, t);
      EntryStandsFor(op, t);
    }
  }

  lemma BatchStandsFor(ops: seq<Op>, t: Table)
    requires BatchBuilds(ops, t)
    ensures forall e :: e in BuildAll(BatchOps(ops, t, BatchOrgs(ops))) ==> StandsForOne(e, ops, t)
  {
    BatchStandsForOps(ops, t, BatchOrgs(ops));
  }

  lemma NothingToWrite(t: Table)
    ensures BatchBuilds([], t) && Emittable([], t) && BatchOps([], t, BatchOrgs([])) == [] && BuildAll([]) == [] && Emit([], t) == []
  {
  }

  lemma CommitsAlike(ops: seq<Op>, t: Table)
    ensures OrgsAgree(ops, t, BatchOrgs(ops)) ==> (BatchBuilds(ops, t) <==> Emittable(ops, t))
    ensures OrgsAgree(ops, t, BatchOrgs(ops)) && BatchBuilds(ops, t) ==>
      BuildAll(BatchOps(ops, t, BatchOrgs(ops))) == Emit(ops, t)
  {
    BatchBuildsIff(ops, t);
    if BatchBuilds(ops, t) {
      BatchedPathRefinesIff(ops, t);
    }
  }
}
