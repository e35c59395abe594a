/** The outbox protocol as a transition system: flushes track operations, a
    commit turns them into log entries, a rollback forgets them.  Replaying the
    log must give a replica of the committed hosts. */
module OutboxProtocol {
  import opened Common
  import opened OutboxHistory

  type HostId = string
  type OrgId = string

  datatype GroupRef = GroupRef(id: Option<string>, name: string)

  /** The columns of a host that matter here; `rest` stands for all others. */
  datatype Host = Host(
    org: OrgId,
    groups: seq<GroupRef>,
    satelliteId: Option<string>,
    subscriptionManagerId: Option<string>,
    insightsId: Option<string>,
    ansibleHost: Option<string>,
    rest: string)

  type Table = map<HostId, Host>

  datatype Kind = Created | Updated | Deleted

  datatype Op = Op(kind: Kind, id: HostId, org: OrgId)

  /** The payload of a report, which is also what a replica keeps. */
  datatype View = View(
    workspaceId: Option<string>,
    satelliteId: Option<string>,
    subscriptionManagerId: Option<string>,
    insightsId: Option<string>,
    ansibleHost: Option<string>)

  datatype Entry = ReportResource(id: HostId, view: View) | DeleteResource(id: HostId)

  type Replica = map<HostId, View>

  /* ---------- payloads ---------- */

  /** An empty string is reported as null, like a missing value. */
  function Truthy(o: Option<string>): Option<string> {
    if o == Some("") then None else o
  }

  function ViewOf(h: Host): View {
    View(if h.groups == [] then None else h.groups[0].id,
         Truthy(h.satelliteId), Truthy(h.subscriptionManagerId), Truthy(h.insightsId), Truthy(h.ansibleHost))
  }

  /** Building the payload fails on a first group without an id. */
  predicate PayloadBuilds(h: Host) {
    h.groups != [] ==> h.groups[0].id.Some?
  }

  function Views(t: Table): Replica {
    map id | id in t :: ViewOf(t[id])
  }

  /** The view shows the columns of the host, each under its own name: an empty text like
      a missing one, and of the groups the id of the first. */
  predicate Shows(v: View, h: Host) {
    && v.workspaceId == (if |h.groups| == 0 then None else h.groups[0].id)
    && ShowsText(v.satelliteId, h.satelliteId)
    && ShowsText(v.subscriptionManagerId, h.subscriptionManagerId)
    && ShowsText(v.insightsId, h.insightsId)
    && ShowsText(v.ansibleHost, h.ansibleHost)
  }

  predicate ShowsText(shown: Option<string>, column: Option<string>) {
    if column.Some? && column.value != "" then shown == column else shown.None?
  }

  /** A payload shows its host, and nothing else does. */
  lemma PayloadShowsIff(v: View, h: Host)
    ensures v == ViewOf(h) <==> Shows(v, h)
  {}

  /* ---------- change detection ---------- */

  function GroupHistory(groups: seq<GroupRef>): Hist {
    Plain([Mutable(seq(|groups|, i requires 0 <= i < |groups| => Dict(groups[i].id)))])
  }

  function GroupIds(groups: seq<GroupRef>): set<string> {
    set g | g in groups && g.id.Some? :: g.id.value
  }

  predicate RelevantChange(before: Host, after: Host) {
    || before.satelliteId != after.satelliteId
    || before.subscriptionManagerId != after.subscriptionManagerId
    || before.insightsId != after.insightsId
    || before.ansibleHost != after.ansibleHost
    || ExtractGroupIds(GroupHistory(before.groups)) != ExtractGroupIds(GroupHistory(after.groups))
  }

  lemma GroupHistoryIds(groups: seq<GroupRef>)
    ensures ExtractGroupIds(GroupHistory(groups)) == GroupIds(groups)
  {
    var h := GroupHistory(groups);
    var inner := h.items[0];
    assert Unwrap(h) == inner;
    forall x ensures x in ExtractGroupIds(h) <==> x in GroupIds(groups) {
      if x in GroupIds(groups) {
        var g :| g in groups && g.id == Some(x);
        var i :| 0 <= i < |groups| && groups[i] == g;
        assert inner.items[i] == Dict(Some(x)) && x in ItemIds(inner.items[i]);
      }
      if x in ExtractGroupIds(h) {
        var i :| 0 <= i < |inner.items| && x in ItemIds(inner.items[i]);
        assert inner.items[i] == Dict(groups[i].id) && groups[i] in groups;
      }
    }
  }

  predicate InGroup(h: Host, id: string) {
    exists g :: g in h.groups && g.id == Some(id)
  }

  /** What the listeners notice, on the columns. */
  lemma RelevantIff(a: Host, b: Host)
    ensures RelevantChange(a, b)
       <==> || a.satelliteId != b.satelliteId || a.subscriptionManagerId != b.subscriptionManagerId
            || a.insightsId != b.insightsId || a.ansibleHost != b.ansibleHost
            || exists id :: InGroup(a, id) != InGroup(b, id)
  {
    GroupHistoryIds(a.groups);
    GroupHistoryIds(b.groups);
    forall id ensures InGroup(a, id) <==> id in GroupIds(a.groups) {
    }
    forall id ensures InGroup(b, id) <==> id in GroupIds(b.groups) {
    }
    hide GroupIds, InGroup, ExtractGroupIds, GroupHistory;
    if GroupIds(a.groups) != GroupIds(b.groups) {
      var id :| (id in GroupIds(a.groups)) != (id in GroupIds(b.groups));
      assert InGroup(a, id) != InGroup(b, id);
    }
  }

  /** Which payload changes go unnoticed: exactly those that keep the four
      tracked values and the set of group ids but put another id first. */
  lemma DetectionGap(a: Host, b: Host)
    ensures ViewOf(a) != ViewOf(b) && !RelevantChange(a, b)
       <==> && a.satelliteId == b.satelliteId && a.subscriptionManagerId == b.subscriptionManagerId
            && a.insightsId == b.insightsId && a.ansibleHost == b.ansibleHost
            && GroupIds(a.groups) == GroupIds(b.groups)
            && ViewOf(a).workspaceId != ViewOf(b).workspaceId
  {
    GroupHistoryIds(a.groups);
    GroupHistoryIds(b.groups);
  }

  lemma SoleGroupId(h: Host)
    requires |h.groups| <= 1
    ensures GroupIds(h.groups) == if ViewOf(h).workspaceId.Some? then {ViewOf(h).workspaceId.value} else {}
  {
    if h.groups != [] {
      assert forall g :: g in h.groups <==> g == h.groups[0];
    }
  }

  /** With at most one group per host nothing goes unnoticed. */
  lemma DetectionComplete(a: Host, b: Host)
    requires |a.groups| <= 1 && |b.groups| <= 1
    requires ViewOf(a) != ViewOf(b)
    ensures RelevantChange(a, b)
  {
    DetectionGap(a, b);
    SoleGroupId(a);
    SoleGroupId(b);
    var x, y := ViewOf(a).workspaceId, ViewOf(b).workspaceId;
    if x.Some? && y.Some? && {x.value} == {y.value} {
      assert x.value in {y.value};
    }
  }

  /* ---------- tracking ---------- */

  function Track(pending: seq<Op>, op: Op): seq<Op> {
    if op in pending then pending else pending + [op]
  }

  function TrackAll(pending: seq<Op>, ops: seq<Op>): seq<Op>
    decreases |ops|
  {
    if ops == [] then pending else Track(TrackAll(pending, ops[..|ops| - 1]), ops[|ops| - 1])
  }

  datatype Change = Insert(id: HostId, row: Host) | Update(id: HostId, row: Host) | Remove(id: HostId)

  /** What the database accepts. */
  predicate Legal(c: Change, t: Table) {
    if c.Insert? then c.id !in t else c.id in t
  }

  function Apply(c: Change, t: Table): Table {
    if c.Remove? then t - {c.id} else t[c.id := c.row]
  }

  /** The operation one change makes the listeners track: after_insert,
      after_update (and before_flush) or before_delete. */
  function OpOf(c: Change, t: Table): Option<Op>
    requires Legal(c, t)
  {
    match c
    case Insert(id, row) => Some(Op(Created, id, row.org))
    case Update(id, row) => if RelevantChange(t[id], row) then Some(Op(Updated, id, row.org)) else None
    case Remove(id) => Some(Op(Deleted, id, t[id].org))
  }

  /* ---------- emission ---------- */

  /** Reloading the host of an operation: it must be stored under one of `orgs`. */
  predicate Found(op: Op, t: Table, orgs: set<OrgId>) {
    op.id in t && t[op.id].org in orgs
  }

  function EntryFor(op: Op, t: Table): Entry
    requires op.kind == Deleted || op.id in t
  {
    if op.kind == Deleted then DeleteResource(op.id) else ReportResource(op.id, ViewOf(t[op.id]))
  }

  /** The entries of the per-item path, in order. */
  function Emit(ops: seq<Op>, t: Table): seq<Entry>
    decreases |ops|
  {
    if ops == [] then []
    else
      var op := ops[|ops| - 1];
      Emit(ops[..|ops| - 1], t)
        + if op.kind == Deleted || Found(op, t, {op.org}) then [EntryFor(op, t)] else []
  }

  /** The per-item path completes: every report it builds has a payload. */
  predicate Emittable(ops: seq<Op>, t: Table) {
    forall op :: op in ops && op.kind != Deleted && Found(op, t, {op.org}) ==> PayloadBuilds(t[op.id])
  }

  /** An entry stands for one of the pending operations: a deletion of its host, or a
      report that shows the host as it is stored. */
  predicate StandsFor(e: Entry, op: Op, t: Table) {
    match e
    case DeleteResource(id) => op.kind == Deleted && op.id == id
    case ReportResource(id, view) => op.kind != Deleted && op.id == id && id in t && Shows(view, t[id])
  }

  predicate StandsForOne(e: Entry, ops: seq<Op>, t: Table) {
    exists op :: op in ops && StandsFor(e, op, t)
  }

  lemma EntryStandsFor(op: Op, t: Table)
    requires op.kind == Deleted || op.id in t
    ensures StandsFor(EntryFor(op, t), op, t)
  {
    if op.kind != Deleted {
      PayloadShowsIff(ViewOf(t[op.id]), t[op.id]);
    }
  }

  /** Every entry stands for a pending operation, and there are no more of them. */
  lemma {:induction false} EntriesStandForOps(ops: seq<Op>, t: Table)
    ensures |Emit(ops, t)| <= |ops| && forall e :: e in Emit(ops, t) ==> StandsForOne(e, ops, t)
    decreases |ops|
  {
    if ops != [] {
      var front, op := ops[..|ops| - 1], ops[|ops| - 1];
      assert ops == front + [op];
      EntriesStandForOps(front, t);
      if op.kind == Deleted || Found(op, t, {op.org}) {
        EntryStandsFor(op, t);
        assert StandsForOne(EntryFor(op, t), ops, t);
      }
      hide StandsFor;
      forall e | e in Emit(front, t) ensures StandsForOne(e, ops, t) {
        var o :| o in front && StandsFor(e, o, t);
        assert o in ops;
      }
    }
  }

  /* ---------- replay ---------- */

  function ReplayOne(r: Replica, e: Entry): Replica {
    match e
    case ReportResource(id, view) => r[id := view]
    case DeleteResource(id) => r - {id}
  }

  function Replay(r: Replica, log: seq<Entry>): Replica
    decreases |log|
  {
    if log == [] then r else ReplayOne(Replay(r, log[..|log| - 1]), log[|log| - 1])
  }

  lemma {:induction false} ReplayAppend(r: Replica, a: seq<Entry>, b: seq<Entry>)
    ensures Replay(r, a + b) == Replay(Replay(r, a), b)
    decreases |b|
  {
    if b == [] {
      assert a + b == a;
    } else {
      var n := |b| - 1;
      assert (a + b)[..|a + b| - 1] == a + b[..n];
      ReplayAppend(r, a, b[..n]);
    }
  }

  /** The kind of the last operation on `id` that yields an entry. */
  function LastEffect(ops: seq<Op>, t: Table, id: HostId): Option<Kind>
    decreases |ops|
  {
    if ops == [] then None
    else
      var op := ops[|ops| - 1];
      if op.id == id && (op.kind == Deleted || Found(op, t, {op.org})) then Some(op.kind)
      else LastEffect(ops[..|ops| - 1], t, id)
  }

  /** What replaying one commit's entries does to one host. */
  lemma {:induction false} ReplayEmitted(r: Replica, ops: seq<Op>, t: Table, id: HostId)
    ensures var out := Replay(r, Emit(ops, t));
            match LastEffect(ops, t, id)
            case None => (id in out <==> id in r) && (id in r ==> out[id] == r[id])
            case Some(Deleted) => id !in out
            case Some(_) => id in t && id in out && out[id] == ViewOf(t[id])
    decreases |ops|
  {
    if ops != [] {
      var op := ops[|ops| - 1];
      var front := ops[..|ops| - 1];
      ReplayEmitted(r, front, t, id);
      if op.kind == Deleted || Found(op, t, {op.org}) {
        var e := EntryFor(op, t);
        assert Emit(ops, t)[..|Emit(front, t)|] == Emit(front, t);
        assert Replay(r, Emit(ops, t)) == ReplayOne(Replay(r, Emit(front, t)), e);
      } else {
        assert Emit(ops, t) == Emit(front, t);
      }
    }
  }

  /* ---------- the transition system ---------- */

  /** Committed hosts, the session's view of them, its pending operations, and
      the committed log. */
  datatype Db = Db(committed: Table, working: Table, pending: seq<Op>, log: seq<Entry>)

  datatype Step = Flush(changes: seq<Change>) | Commit | Rollback

  const EMPTY := Db(map[], map[], [], [])

  function RolledBack(db: Db): Db {
    db.(working := db.committed, pending := [])
  }

  /** One unit of work writes each host at most once. */
  predicate DistinctIds(changes: seq<Change>) {
    forall i, j :: 0 <= i < j < |changes| ==> changes[i].id != changes[j].id
  }

  predicate LegalFlush(changes: seq<Change>, t: Table) {
    DistinctIds(changes) && forall c :: c in changes ==> Legal(c, t)
  }

  function ApplyAll(changes: seq<Change>, t: Table): Table
    decreases |changes|
  {
    if changes == [] then t else Apply(changes[|changes| - 1], ApplyAll(changes[..|changes| - 1], t))
  }

  /** The operations of the changes selected by `dirtyOnly`: before_flush looks
      at modified hosts only, the mapper events at every change. */
  function Ops(changes: seq<Change>, t: Table, dirtyOnly: bool): seq<Op>
    requires forall c :: c in changes ==> Legal(c, t)
    decreases |changes|
  {
    if changes == [] then []
    else
      var c := changes[|changes| - 1];
      Ops(changes[..|changes| - 1], t, dirtyOnly)
        + if (dirtyOnly ==> c.Update?) && OpOf(c, t).Some? then [OpOf(c, t).value] else []
  }

  function Next(db: Db, step: Step): Db {
    match step
    case Flush(changes) =>
      if LegalFlush(changes, db.working) then
        db.(working := ApplyAll(changes, db.working),
            pending := TrackAll(TrackAll(db.pending, Ops(changes, db.working, true)), Ops(changes, db.working, false)))
      else RolledBack(db)
    case Commit =>
      if Emittable(db.pending, db.working) then
        Db(db.working, db.working, [], db.log + Emit(db.pending, db.working))
      else RolledBack(db)
    case Rollback => RolledBack(db)
  }

  function Run(db: Db, steps: seq<Step>): Db
    decreases |steps|
  {
    if steps == [] then db else Next(Run(db, steps[..|steps| - 1]), steps[|steps| - 1])
  }

  predicate Agrees(db: Db) {
    Replay(map[], db.log) == Views(db.committed)
  }

  /** Agreement, on the columns: the replica has exactly the committed hosts, and shows
      of each its own columns. */
  lemma AgreesIff(db: Db)
    ensures Agrees(db)
       <==> var replica := Replay(map[], db.log);
            forall id :: (id in replica <==> id in db.committed)
              && (id in db.committed && id in replica ==> Shows(replica[id], db.committed[id]))
  {
    var replica, views := Replay(map[], db.log), Views(db.committed);
    hide Replay;
    forall id | id in db.committed && id in replica
      ensures Shows(replica[id], db.committed[id]) <==> replica[id] == views[id]
    {
      PayloadShowsIff(replica[id], db.committed[id]);
    }
    if forall id :: (id in replica <==> id in db.committed)
         && (id in db.committed && id in replica ==> Shows(replica[id], db.committed[id])) {
      assert replica.Keys == views.Keys;
      assert replica == views;
    }
  }
}
