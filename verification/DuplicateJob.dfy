/** The loop of the duplicate-removal job over the hosts table. */
module DuplicateJob {
  import opened Common
  import opened FactMatching
  import opened DuplicateRemoval

  /* ---------- pages ---------- */

  /** `page` is the next page of hosts in order of id, after `cursor`. */
  predicate IsPage(page: seq<Host>, all: set<Host>, cursor: int, chunk: nat) {
    && (forall h :: h in page ==> h in all && h.id > cursor)
    && (forall i, j :: 0 <= i < j < |page| ==> page[i].id < page[j].id)
    && (chunk > 0 ==> forall h :: h in all && h.id > cursor ==>
          h in page || (page != [] && h.id > page[|page| - 1].id))
  }

  /** `page` are the lowest of the rows, in order, and `rest` the others. */
  ghost predicate Front(page: seq<Host>, rest: set<Host>, rows: set<Host>) {
    && (forall h :: h in rows <==> h in rest || h in page)
    && (forall h, m :: h in page && m in rest ==> h.id < m.id)
    && (forall i, j :: 0 <= i < j < |page| ==> page[i].id < page[j].id)
  }

  lemma NothingInFront(rows: set<Host>)
    ensures Front([], rows, rows)
  {}

  lemma FrontGrows(page: seq<Host>, rest: set<Host>, rows: set<Host>, h: Host)
    requires Front(page, rest, rows) && UniqueIds(rows) && h in rest && forall m :: m in rest ==> h.id <= m.id
    ensures Front(page + [h], rest - {h}, rows)
  {
    assert forall x :: x in page + [h] <==> x in page || x == h;
    assert forall m :: m in rest - {h} ==> m in rows && h in rows && h.id < m.id;
  }

  lemma FrontIsPage(page: seq<Host>, rest: set<Host>, all: set<Host>, cursor: int, chunk: nat)
    requires Front(page, rest, set h | h in all && h.id > cursor) && (rest == {} || |page| >= chunk)
    ensures IsPage(page, all, cursor, chunk)
  {
    if chunk > 0 && rest != {} {
      assert page[|page| - 1] in page;
    }
  }

  lemma UniqueAfter(all: set<Host>, cursor: int, rows: set<Host>)
    requires UniqueIds(all) && rows == set h | h in all && h.id > cursor
    ensures UniqueIds(rows)
  {}

  function After(all: set<Host>, cursor: int): set<Host> {
    set h | h in all && h.id > cursor
  }

  predicate UniqueIds(all: set<Host>) {
    forall a, b :: a in all && b in all && a.id == b.id ==> a == b
  }

  lemma {:induction false} LowestExists(rows: set<Host>)
    requires rows != {}
    ensures exists h :: h in rows && forall m :: m in rows ==> h.id <= m.id
    decreases |rows|
  {
    var h :| h in rows;
    if rows != {h} {
      var rest := rows - {h};
      assert rows == rest + {h};
      LowestExists(rest);
      var l :| l in rest && forall m :: m in rest ==> l.id <= m.id;
      var w := if h.id < l.id then h else l;
      assert w in rows && forall m :: m in rows ==> m == h || m in rest;
    } else {
      assert forall m :: m in rows ==> m == h;
    }
  }

  /** Whatever is found has a first row, so there are such queries. */
  lemma {:induction false} FirstExists(found: set<Host>)
    requires found != {}
    ensures exists n :: ComesFirst(n, found)
    decreases |found|
  {
    var h :| h in found;
    if found == {h} {
      assert ComesFirst(h, found);
    } else {
      var rest := found - {h};
      assert found == rest + {h};
      FirstExists(rest);
      var l :| ComesFirst(l, rest);
      var w := if Below(l.checkIn, h.checkIn) then h else l;
      assert forall m :: m in found ==> m == h || m in rest;
      assert ComesFirst(w, found);
    }
  }

  lemma IdsSize(rows: set<Host>)
    requires UniqueIds(rows)
    ensures |set h | h in rows :: h.id| == |rows|
  {
    KeysSize(rows, (h: Host) => h.id, set h | h in rows :: h.id);
  }

  /* ---------- bookkeeping over pages ---------- */

  lemma {:induction false} FirstFoundSkips(stages: seq<Stage>, all: set<Host>, i: nat)
    requires i <= |stages| && forall j :: 0 <= j < i ==> Selected(stages[j].target, all) == {}
    ensures FirstFound(stages, all) == FirstFound(stages[i..], all)
    decreases i
  {
    if i == 0 {
      assert stages[0..] == stages;
    } else {
      assert stages[1..][i - 1..] == stages[i..];
      FirstFoundSkips(stages[1..], all, i - 1);
    }
  }

  /** Adding one host of the page to the tally. */
  lemma DuplicatesAdd(keeps: map<Host, Host>, page: set<Host>, all: set<Host>, useSubmanId: bool, x: Host, n: Host)
    requires x !in page && x !in keeps
    ensures Duplicates(keeps[x := n], page + {x}, all, useSubmanId)
         == Duplicates(keeps, page, all, useSubmanId) + Surplus(x, n, all, useSubmanId)
  {
    hide Matching;
    var l := Duplicates(keeps[x := n], page + {x}, all, useSubmanId);
    forall d ensures d in l <==> d in Duplicates(keeps, page, all, useSubmanId) + Surplus(x, n, all, useSubmanId) {
      if d in l {
        var y :| y in page + {x} && y in keeps[x := n] && d in Surplus(y, keeps[x := n][y], all, useSubmanId);
      }
      if d in Duplicates(keeps, page, all, useSubmanId) {
        var y :| y in page && y in keeps && d in Surplus(y, keeps[y], all, useSubmanId);
        assert keeps[x := n][y] == keeps[y] && y in page + {x};
      }
      if d in Surplus(x, n, all, useSubmanId) {
        assert x in page + {x} && keeps[x := n][x] == n;
      }
    }
  }

  lemma DuplicatesAddNone(keeps: map<Host, Host>, page: set<Host>, all: set<Host>, useSubmanId: bool, x: Host)
    requires x !in page && x !in keeps
    ensures Duplicates(keeps, page + {x}, all, useSubmanId) == Duplicates(keeps, page, all, useSubmanId)
  {}

  lemma NoDuplicatesYet(all: set<Host>, useSubmanId: bool)
    ensures Duplicates(map[], {}, all, useSubmanId) == {}
  {}

  lemma OneMember(found: set<Host>, n: Host)
    requires n in found && |found| <= 1
    ensures found - {n} == {}
  {
    assert |found - {n}| == |found| - 1;
  }

  /** What the pages up to `cursor` can see to be outdated: hosts with a copy to be
      kept instead among the matches of one of the hosts seen. */
  function OutdatedUpTo(all: set<Host>, cursor: int, useSubmanId: bool, rank: Rank): set<Host> {
    set x, d | x in all && x.id <= cursor && d in Matching(x, all, useSubmanId)
               && Outranked(d, Matching(x, all, useSubmanId), rank) :: d
  }

  function Outdated(all: set<Host>, useSubmanId: bool, rank: Rank): set<Host> {
    set x, d | x in all && d in Matching(x, all, useSubmanId) && Outranked(d, Matching(x, all, useSubmanId), rank) :: d
  }

  predicate Outranked(d: Host, found: set<Host>, rank: Rank) {
    exists m :: m in found && rank(d, m)
  }

  /** A page finds everything outdated that its hosts can see. */
  lemma PageFindsOutdated(keeps: map<Host, Host>, page: seq<Host>, all: set<Host>, cursor: int, chunk: nat, useSubmanId: bool, rank: Rank)
    requires IsPage(page, all, cursor, chunk) && chunk > 0 && page != []
    requires KeepsLeaders(keeps, Elements(page), all, useSubmanId, rank) && IsOrder(rank)
    ensures OutdatedUpTo(all, page[|page| - 1].id, useSubmanId, rank)
         <= OutdatedUpTo(all, cursor, useSubmanId, rank) + Duplicates(keeps, Elements(page), all, useSubmanId)
  {
    hide Matching;
    var last := page[|page| - 1].id;
    forall d | d in OutdatedUpTo(all, last, useSubmanId, rank)
      ensures d in OutdatedUpTo(all, cursor, useSubmanId, rank) + Duplicates(keeps, Elements(page), all, useSubmanId)
    {
      var x :| x in all && x.id <= last && d in Matching(x, all, useSubmanId) && Outranked(d, Matching(x, all, useSubmanId), rank);
      if x.id > cursor {
        assert x in Elements(page);
        var m :| m in Matching(x, all, useSubmanId) && rank(d, m);
        assert keeps[x] != d;
        assert d in Surplus(x, keeps[x], all, useSubmanId);
      }
    }
  }

  /** Where one order decides all ties only outdated hosts are ever deleted. */
  lemma OnlyOutdatedDeleted(keeps: map<Host, Host>, page: set<Host>, now: set<Host>, all: set<Host>, useSubmanId: bool, rank: Rank)
    requires PageOf(keeps, page, now, all, useSubmanId, rank)
    ensures Duplicates(keeps, page, now, useSubmanId) <= Outdated(all, useSubmanId, rank)
  {
    hide Duplicates, PageOf;
    forall d | d in Duplicates(keeps, page, now, useSubmanId) ensures d in Outdated(all, useSubmanId, rank) {
      var n := DuplicateHasCopy(d, keeps, page, now, all, useSubmanId, rank);
      var x :| x in all && d in Matching(x, all, useSubmanId) && n in Matching(x, all, useSubmanId);
      assert Outranked(d, Matching(x, all, useSubmanId), rank);
    }
  }

  /** What a finished page leaves settled. */
  lemma PageAdvances(keeps: map<Host, Host>, page: seq<Host>, now: set<Host>, cursor: int, chunk: nat, useSubmanId: bool)
    requires IsPage(page, now, cursor, chunk) && page != [] && chunk > 0
    requires ValidKeeps(keeps, Elements(page), now, useSubmanId)
    requires forall h :: h in now && h.id <= cursor ==> Settled(h, now, useSubmanId)
    ensures var rest := now - Duplicates(keeps, Elements(page), now, useSubmanId);
            forall h :: h in rest && h.id <= page[|page| - 1].id ==> Settled(h, rest, useSubmanId)
  {
    hide Settled, Duplicates, ValidKeeps;
    var dups := Duplicates(keeps, Elements(page), now, useSubmanId);
    var rest := now - dups;
    forall h | h in rest && h.id <= page[|page| - 1].id ensures Settled(h, rest, useSubmanId) {
      if h.id <= cursor {
        SettledStays(h, now, rest, useSubmanId);
      } else {
        assert h in page;
        PageSettles(h, keeps, Elements(page), now, useSubmanId);
      }
    }
  }

  lemma PageShortens(page: seq<Host>, all: set<Host>, fewer: set<Host>, cursor: int, chunk: nat)
    requires IsPage(page, all, cursor, chunk) && page != [] && fewer <= all
    ensures |After(fewer, page[|page| - 1].id)| < |After(all, cursor)|
  {
    var last := page[|page| - 1];
    var a, b := After(fewer, last.id), After(all, cursor);
    assert last in page && page[0] in page;
    assert last.id > cursor;
    assert a <= b && last in b && last !in a;
    assert b == a + (b - a) && last in b - a && |b| == |a| + |b - a|;
  }

  /* ---------- progress of a run ---------- */

  /** A run over one organisation: its hosts at the start, and what decides. */
  datatype Run = Run(all: set<Host>, useSubmanId: bool, rank: Rank, consistent: bool)

  /** Whatever has gone from among these hosts was superseded. */
  predicate GoneSuperseded(before: set<Host>, after: set<Host>, run: Run) {
    forall d :: d in before - after ==> Superseded(d, run.all, run.useSubmanId)
  }

  /** A page's duplicates may all go, however ties fall. */
  lemma DeadSuperseded(run: Run, now: set<Host>, keeps: map<Host, Host>, page: set<Host>, dead: set<Host>, after: set<Host>)
    requires page <= now <= run.all && Decided(run, keeps, page, now)
    requires dead <= Duplicates(keeps, page, now, run.useSubmanId) && after == now - dead
    ensures GoneSuperseded(now, after, run)
  {
    hide ValidKeeps, KeepsLeaders, Duplicates, Superseded, IsOrder;
    forall d | d in dead ensures Superseded(d, run.all, run.useSubmanId) {
      DuplicateIsSuperseded(d, keeps, page, now, run.all, run.useSubmanId);
    }
  }

  lemma SupersededInTurn(a: set<Host>, b: set<Host>, c: set<Host>, run: Run)
    requires GoneSuperseded(a, b, run) && GoneSuperseded(b, c, run)
    ensures GoneSuperseded(a, c, run)
  {
    hide Superseded;
  }

  lemma NothingGone(all: set<Host>, run: Run)
    ensures GoneSuperseded(all, all, run)
  {}

  /** Nothing is lost: where one order decides all ties, every original host has a chain
      of preferred copies to one that is left, and only outdated ones are gone. */
  ghost predicate Safe(run: Run, now: set<Host>) {
    && now <= run.all
    && (run.consistent ==>
          && AllRepresented(now, run.all, run.useSubmanId, run.rank)
          && run.all - now <= Outdated(run.all, run.useSubmanId, run.rank))
  }

  /** What holds between pages: `now` is what is left of the organisation's hosts,
      pages up to `cursor` are through, and `total` was counted. */
  ghost predicate Progress(run: Run, now: set<Host>, cursor: int, total: nat, dryRun: bool) {
    && UniqueIds(run.all) && Safe(run, now)
    && (dryRun ==> now == run.all && (run.consistent ==> total >= |OutdatedUpTo(run.all, cursor, run.useSubmanId, run.rank)|))
    && (!dryRun ==> total == |run.all - now| && forall h :: h in now && h.id <= cursor ==> Settled(h, now, run.useSubmanId))
  }

  lemma ProgressStarts(run: Run, dryRun: bool)
    requires UniqueIds(run.all) && forall h :: h in run.all ==> h.id > -1
    ensures Progress(run, run.all, -1, 0, dryRun)
  {
    hide Matching, UniqueIds, Settled, Outdated;
    assert OutdatedUpTo(run.all, -1, run.useSubmanId, run.rank) == {};
    assert run.all - run.all == {};
    forall d | d in run.all ensures exists chain :: Represented(d, run.all, run.all, run.useSubmanId, run.rank, chain) {
      assert Represented(d, run.all, run.all, run.useSubmanId, run.rank, [d]);
    }
  }

  /** The decisions of a page fit the run. */
  ghost predicate Decided(run: Run, keeps: map<Host, Host>, page: set<Host>, now: set<Host>) {
    && ValidKeeps(keeps, page, now, run.useSubmanId)
    && (run.consistent ==> IsOrder(run.rank) && KeepsLeaders(keeps, page, now, run.useSubmanId, run.rank))
  }

  /** Deleting any of a page's duplicates loses nothing. */
  lemma PageIsSafe(run: Run, now: set<Host>, keeps: map<Host, Host>, page: set<Host>, dead: set<Host>)
    requires Safe(run, now) && page <= now && Decided(run, keeps, page, now)
    requires dead <= Duplicates(keeps, page, now, run.useSubmanId)
    ensures Safe(run, now - dead)
  {
    hide ValidKeeps, KeepsLeaders, AllRepresented, Duplicates, Outdated, IsOrder;
    if run.consistent {
      assert PageOf(keeps, page, now, run.all, run.useSubmanId, run.rank);
      PageKeepsRepresented(keeps, page, now, run.all, dead, run.useSubmanId, run.rank);
      OnlyOutdatedDeleted(keeps, page, now, run.all, run.useSubmanId, run.rank);
    }
  }

  lemma PageProgress(run: Run, now: set<Host>, cursor: int, total: nat, dryRun: bool,
                     page: seq<Host>, chunk: nat, keeps: map<Host, Host>)
    requires Progress(run, now, cursor, total, dryRun)
    requires IsPage(page, now, cursor, chunk) && page != [] && chunk > 0 && Decided(run, keeps, Elements(page), now)
    ensures var dups := Duplicates(keeps, Elements(page), now, run.useSubmanId);
            Progress(run, if dryRun then now else now - dups, page[|page| - 1].id, total + |dups|, dryRun)
  {
    hide Matching, Duplicates, ValidKeeps, KeepsLeaders, OutdatedUpTo, Settled, UniqueIds, Safe, IsOrder;
    var dups := Duplicates(keeps, Elements(page), now, run.useSubmanId);
    var last := page[|page| - 1].id;
    DuplicatesAreStored(keeps, Elements(page), now, run.useSubmanId);
    SafeIsSubset(run, now);
    if dryRun {
      if run.consistent {
        var seen := OutdatedUpTo(run.all, cursor, run.useSubmanId, run.rank);
        PageFindsOutdated(keeps, page, run.all, cursor, chunk, run.useSubmanId, run.rank);
        SubsetSize(OutdatedUpTo(run.all, last, run.useSubmanId, run.rank), seen + dups);
        UnionSize(seen, dups);
      }
    } else {
      PageIsSafe(run, now, keeps, Elements(page), dups);
      PageAdvances(keeps, page, now, cursor, chunk, run.useSubmanId);
      assert run.all - (now - dups) == (run.all - now) + dups;
      assert |(run.all - now) + dups| == |run.all - now| + |dups|;
    }
  }

  lemma SafeIsSubset(run: Run, now: set<Host>)
    requires Safe(run, now)
    ensures now <= run.all
  {}

  lemma DuplicatesAreStored(keeps: map<Host, Host>, page: set<Host>, all: set<Host>, useSubmanId: bool)
    requires page <= all
    ensures Duplicates(keeps, page, all, useSubmanId) <= all
  {
    forall d | d in Duplicates(keeps, page, all, useSubmanId) ensures d in all {
      var x :| x in page && x in keeps && d in Surplus(x, keeps[x], all, useSubmanId);
      MatchingIsFirstStage(x, all, useSubmanId);
    }
  }

  /** What can be said whenever a run stops. */
  lemma SafeSays(run: Run, now: set<Host>)
    requires Safe(run, now) && run.consistent
    ensures AllRepresented(now, run.all, run.useSubmanId, run.rank)
    ensures now <= run.all && |run.all - now| <= |Outdated(run.all, run.useSubmanId, run.rank)|
  {
    hide Outdated, AllRepresented;
    SubsetSize(run.all - now, Outdated(run.all, run.useSubmanId, run.rank));
  }

  lemma PageIsDistinct(page: seq<Host>, all: set<Host>, cursor: int, chunk: nat)
    requires IsPage(page, all, cursor, chunk)
    ensures Distinct(page) && (forall h :: h in page ==> h in all) && Elements(page) <= all
  {}

  /** When no page is left, every host is through. */
  lemma ProgressEnds(run: Run, now: set<Host>, cursor: int, total: nat, dryRun: bool, chunk: nat)
    requires Progress(run, now, cursor, total, dryRun) && IsPage([], now, cursor, chunk) && chunk > 0
    ensures dryRun && run.consistent ==> total >= |Outdated(run.all, run.useSubmanId, run.rank)|
    ensures !dryRun ==> AllSettled(now, run.useSubmanId)
  {
    hide Matching, Settled, Safe, Outranked;
    if dryRun {
      assert OutdatedUpTo(run.all, cursor, run.useSubmanId, run.rank) == Outdated(run.all, run.useSubmanId, run.rank);
    }
  }

  /** For every host of the page that matches any, what is kept is the first row of some
      query for them. */
  ghost predicate PickedFrom(first: FirstRow, keeps: map<Host, Host>, page: set<Host>, all: set<Host>, useSubmanId: bool) {
    forall x :: x in page && Matching(x, all, useSubmanId) != {} ==>
      x in keeps && exists q :: keeps[x] == first(q, Matching(x, all, useSubmanId))
  }

  lemma PickedIsDecided(first: FirstRow, run: Run, keeps: map<Host, Host>, page: set<Host>, now: set<Host>)
    requires LatestFirst(first) && PickedFrom(first, keeps, page, now, run.useSubmanId) && page <= now <= run.all
    requires run.consistent ==> ConsistentTies(first, run.all, run.useSubmanId, run.rank)
    ensures Decided(run, keeps, page, now)
  {
    hide Matching;
    forall x | x in page && Matching(x, now, run.useSubmanId) != {}
      ensures x in keeps && ComesFirst(keeps[x], Matching(x, now, run.useSubmanId))
      ensures run.consistent ==> Leads(keeps[x], Matching(x, now, run.useSubmanId), run.rank)
    {
      hide ComesFirst, Leads;
      var q :| keeps[x] == first(q, Matching(x, now, run.useSubmanId));
    }
  }

  /** Keeping the first match for every host of the page leaves exactly these over. */
  ghost predicate AreDuplicates(first: FirstRow, dups: set<Host>, page: set<Host>, all: set<Host>, useSubmanId: bool) {
    exists keeps :: PickedFrom(first, keeps, page, all, useSubmanId) && dups == Duplicates(keeps, page, all, useSubmanId)
  }

  lemma FirstKept(first: FirstRow, keeps: map<Host, Host>, dups: set<Host>, page: set<Host>, all: set<Host>, useSubmanId: bool)
    requires PickedFrom(first, keeps, page, all, useSubmanId) && dups == Duplicates(keeps, page, all, useSubmanId)
    ensures AreDuplicates(first, dups, page, all, useSubmanId)
  {
    hide PickedFrom, Duplicates;
  }

  lemma KeptFor(first: FirstRow, dups: set<Host>, page: set<Host>, all: set<Host>, useSubmanId: bool) returns (keeps: map<Host, Host>)
    requires AreDuplicates(first, dups, page, all, useSubmanId)
    ensures PickedFrom(first, keeps, page, all, useSubmanId) && dups == Duplicates(keeps, page, all, useSubmanId)
  {
    hide PickedFrom, Duplicates;
    keeps :| PickedFrom(first, keeps, page, all, useSubmanId) && dups == Duplicates(keeps, page, all, useSubmanId);
  }

  /* ---------- the table ---------- */

  function OrgOf(hosts: map<nat, Host>, org: string): set<Host> {
    set i | i in hosts && hosts[i].org == org :: hosts[i]
  }

  predicate Keyed(hosts: map<nat, Host>) {
    forall i :: i in hosts ==> hosts[i].id == i
  }

  lemma KeyedUnique(hosts: map<nat, Host>, org: string)
    requires Keyed(hosts)
    ensures UniqueIds(OrgOf(hosts, org)) && forall h :: h in OrgOf(hosts, org) ==> h.id > -1
  {}

  lemma RowsDeleted(hosts: map<nat, Host>, dups: set<Host>, org: string)
    requires Keyed(hosts) && dups <= OrgOf(hosts, org)
    ensures var ids := set d | d in dups :: d.id;
            && |ids| == |dups|
            && (set i | i in hosts && i in ids && hosts[i].org == org) == ids
            && OrgOf(hosts - ids, org) == OrgOf(hosts, org) - dups
            && |hosts - ids| + |dups| == |hosts|
  {
    var ids := set d | d in dups :: d.id;
    IdsSize(dups);
    assert forall d :: d in dups ==> d.id in hosts && hosts[d.id] == d;
    assert (hosts - ids).Keys == hosts.Keys - ids;
    assert hosts.Keys == (hosts.Keys - ids) + ids;
    assert |hosts.Keys| == |hosts.Keys - ids| + |ids|;
    forall h ensures h in OrgOf(hosts - ids, org) <==> h in OrgOf(hosts, org) - dups {
      if h in OrgOf(hosts, org) && h !in dups {
        assert h.id !in ids by {
          forall d | d in dups ensures d.id != h.id {}
        }
        assert (hosts - ids)[h.id] == h;
      }
    }
  }

  lemma StaysKeyed(hosts: map<nat, Host>, ids: set<nat>)
    requires Keyed(hosts)
    ensures Keyed(hosts - ids)
  {}

  /** Rows of the organisation may be gone; everything else is as it was. */
  predicate OnlyDeletedIn(org: string, before: map<nat, Host>, after: map<nat, Host>) {
    && (forall i :: i in after ==> i in before && after[i] == before[i])
    && (forall i :: i in before && before[i].org != org ==> i in after)
  }

  lemma NothingDeleted(org: string, a: map<nat, Host>)
    ensures OnlyDeletedIn(org, a, a)
  {}

  lemma DeletedInTurn(org: string, a: map<nat, Host>, b: map<nat, Host>, c: map<nat, Host>)
    requires OnlyDeletedIn(org, a, b) && OnlyDeletedIn(org, b, c)
    ensures OnlyDeletedIn(org, a, c)
  {}

  /** Some deletion is interrupted. */
  ghost predicate MayStop(stops: nat -> Option<nat>) {
    exists b: nat :: stops(b).Some?
  }

  /** The job is never told to stop before a page. */
  ghost predicate NeverTold(interrupt: nat -> bool) {
    forall n :: !interrupt(n)
  }

  lemma ToldAt(interrupt: nat -> bool, n: nat)
    ensures interrupt(n) ==> !NeverTold(interrupt)
  {}

  /** What a run has done to the table so far, `total` counted. */
  predicate Accounted(org: string, before: map<nat, Host>, after: map<nat, Host>, total: nat, dryRun: bool, settled: bool, run: Run) {
    && GoneSuperseded(OrgOf(before, org), OrgOf(after, org), run)
    && OnlyDeletedIn(org, before, after)
    && (if dryRun then after == before else |after| + total == |before|)
    && (settled ==> total == 0 && after == before)
  }

  lemma NothingAccounted(org: string, hosts: map<nat, Host>, dryRun: bool, settled: bool, run: Run)
    ensures Accounted(org, hosts, hosts, 0, dryRun, settled, run)
  {}

  lemma AccountedSays(org: string, before: map<nat, Host>, after: map<nat, Host>, total: nat, dryRun: bool, settled: bool, run: Run)
    requires Accounted(org, before, after, total, dryRun, settled, run)
    ensures OnlyDeletedIn(org, before, after) && GoneSuperseded(OrgOf(before, org), OrgOf(after, org), run)
    ensures if dryRun then after == before else |after| + total == |before|
    ensures settled ==> total == 0 && after == before
  {}

  /** One page more; `page` is what it returned. */
  lemma AccountedMore(org: string, before: map<nat, Host>, now: map<nat, Host>, after: map<nat, Host>, total: nat,
                      page: Result<nat, Stopped>, dryRun: bool, settled: bool, run: Run)
    requires Accounted(org, before, now, total, dryRun, settled, run) && OnlyDeletedIn(org, now, after)
    requires GoneSuperseded(OrgOf(now, org), OrgOf(after, org), run)
    requires page.Ok? ==> if dryRun then after == now else |after| + page.value == |now|
    requires dryRun ==> page.Ok?
    requires settled ==> page == Ok(0) && after == now
    ensures OnlyDeletedIn(org, before, after) && GoneSuperseded(OrgOf(before, org), OrgOf(after, org), run)
    ensures page.Ok? ==> Accounted(org, before, after, total + page.value, dryRun, settled, run)
  {
    hide OrgOf;
    SupersededInTurn(OrgOf(before, org), OrgOf(now, org), OrgOf(after, org), run);
    DeletedInTurn(org, before, now, after);
  }

  /** The deletion of a page's duplicates was cut short. */
  datatype Stopped = Interrupted

  /* ---------- the job ---------- */

  class HostTable {
    var hosts: map<nat, Host>
    var queries: nat
    var batches: nat
    /** What each query puts first, and in which of its chunks the n-th deletion is
        interrupted, if at all. */
    const first: FirstRow
    const stops: nat -> Option<nat>

    ghost predicate Valid()
      reads this
    {
      Keyed(hosts) && LatestFirst(first)
    }

    /** The hosts of one organisation. */
    function Org(org: string): set<Host>
      reads this
    {
      OrgOf(hosts, org)
    }

    constructor (hosts: map<nat, Host>, first: FirstRow, stops: nat -> Option<nat>)
      requires Keyed(hosts) && LatestFirst(first)
      ensures Valid() && this.hosts == hosts && this.first == first && this.stops == stops
    {
      this.hosts, this.queries, this.batches, this.first, this.stops := hosts, 0, 0, first, stops;
    }

    /** The keyset query: the next `chunk` hosts in order of id. */
    method NextPage(org: string, cursor: int, chunk: nat) returns (page: seq<Host>)
      requires Valid()
      ensures IsPage(page, Org(org), cursor, chunk) && |page| <= chunk
    {
      KeyedUnique(hosts, org);
      hide LatestFirst, Front, OrgOf;
      var rest := set h | h in Org(org) && h.id > cursor;
      ghost var rows := rest;
      page := [];
      NothingInFront(rest);
      while |page| < chunk && rest != {}
        invariant |page| <= chunk && Front(page, rest, rows)
        decreases chunk - |page|
      {
        LowestExists(rest);
        var h :| h in rest && forall m :: m in rest ==> h.id <= m.id;
        UniqueAfter(Org(org), cursor, rows);
        FrontGrows(page, rest, rows, h);
        page, rest := page + [h], rest - {h};
      }
      FrontIsPage(page, rest, Org(org), cursor, chunk);
    }

    /** find_matching_hosts: the first search that finds any. */
    method FindMatching(h: Host, org: string, useSubmanId: bool) returns (found: set<Host>)
      ensures found == Matching(h, Org(org), useSubmanId)
    {
      var stages := Stages(FactsOf(h), useSubmanId, false);
      for i := 0 to |stages|
        invariant forall j :: 0 <= j < i ==> Selected(stages[j].target, Org(org)) == {}
      {
        found := Selected(stages[i].target, Org(org));
        if found != {} {
          FirstFoundSkips(stages, Org(org), i);
          return;
        }
      }
      FirstFoundSkips(stages, Org(org), |stages|);
      found := {};
    }

    /** The inner loop: the duplicates of one page. */
    method FindDuplicates(page: seq<Host>, org: string, useSubmanId: bool) returns (dups: set<Host>)
      requires Valid() && Distinct(page) && forall h :: h in page ==> h in Org(org)
      modifies this`queries
      ensures AreDuplicates(first, dups, Elements(page), Org(org), useSubmanId)
    {
      hide Matching, Duplicates, AreDuplicates, ComesFirst;
      ghost var all := Org(org);
      dups := {};
      ghost var keeps: map<Host, Host> := map[];
      assert Duplicates(map[], {}, all, useSubmanId) == {} by { NoDuplicatesYet(all, useSubmanId); }
      assert Elements(page[..0]) == {};
      for i := 0 to |page|
        invariant keeps.Keys <= Elements(page[..i])
        invariant PickedFrom(first, keeps, Elements(page[..i]), all, useSubmanId)
        invariant dups == Duplicates(keeps, Elements(page[..i]), all, useSubmanId)
      {
        var x := page[i];
        assert Elements(page[..i + 1]) == Elements(page[..i]) + {x};
        assert x !in Elements(page[..i]);
        var found := FindMatching(x, org, useSubmanId);
        if found != {} {
          var n := first(queries, found);
          FirstIsFound(first, queries, found);
          PickOneMore(first, keeps, Elements(page[..i]), all, useSubmanId, x, queries);
          queries := queries + 1;
          DuplicatesAdd(keeps, Elements(page[..i]), all, useSubmanId, x, n);
          keeps := keeps[x := n];
          if |found| > 1 {
            dups := dups + (found - {n});
          } else {
            OneMember(found, n);
          }
        } else {
          DuplicatesAddNone(keeps, Elements(page[..i]), all, useSubmanId, x);
        }
      }
      assert page[..|page|] == page;
      FirstKept(first, keeps, dups, Elements(page), all, useSubmanId);
    }

    /** Deletes the given hosts chunk by chunk, or only counts them in a dry run. An
        interrupt leaves the chunks before it deleted. */
    method DeleteBatch(dups: set<Host>, org: string, dryRun: bool, chunk: nat)
      returns (r: Result<nat, Stopped>, ghost dead: set<Host>)
      requires Valid() && dups <= Org(org) && chunk > 0
      modifies this`hosts, this`batches
      ensures Valid() && dead <= dups
      ensures Org(org) == old(Org(org)) - dead && |hosts| + |dead| == |old(hosts)| && OnlyDeletedIn(org, old(hosts), hosts)
      ensures dryRun ==> r == Ok(|dups|) && hosts == old(hosts)
      ensures !dryRun && r.Ok? ==> dead == dups && r.value == |dups|
      ensures r.Err? ==> stops(old(batches)).Some?
    {
      hide OrgOf, Keyed, LatestFirst, OnlyDeletedIn;
      dead := {};
      if dryRun {
        NothingDeleted(org, hosts);
        assert Org(org) - {} == Org(org);
        return Ok(|dups|), {};
      }
      var stop := stops(batches);
      batches := batches + 1;
      var done;
      done, dead := DeleteChunks(dups, org, chunk, stop);
      r := if done then Ok(|dups|) else Err(Interrupted);
    }

    /** As many chunks as come before the interrupt. */
    method DeleteChunks(dups: set<Host>, org: string, chunk: nat, stop: Option<nat>) returns (done: bool, ghost dead: set<Host>)
      requires Valid() && dups <= Org(org) && chunk > 0
      modifies this`hosts
      ensures Valid() && dead <= dups && (done ==> dead == dups) && (!done ==> stop.Some?)
      ensures Org(org) == old(Org(org)) - dead && |hosts| + |dead| == |old(hosts)| && OnlyDeletedIn(org, old(hosts), hosts)
    {
      hide OrgOf, Keyed, LatestFirst, OnlyDeletedIn;
      NothingDeleted(org, hosts);
      ghost var all := Org(org);
      dead := {};
      var rest, chunks := dups, 0;
      while rest != {}
        invariant Valid() && dead == dups - rest && rest <= dups
        invariant Org(org) == all - dead && |hosts| + |dead| == |old(hosts)|
        invariant OnlyDeletedIn(org, old(hosts), hosts)
        decreases |rest|
      {
        if stop == Some(chunks) {
          return false, dead;
        }
        var part := SomeOf(rest, chunk);
        ghost var before := hosts;
        PartMoves(all, dups, rest, part);
        DeletePart(part, org);
        DeletedInTurn(org, old(hosts), before, hosts);
        rest, dead, chunks := rest - part, dead + part, chunks + 1;
      }
      done := true;
    }

    /** One chunk, in its own transaction. */
    method DeletePart(part: set<Host>, org: string)
      requires Valid() && part <= Org(org)
      modifies this`hosts
      ensures Valid() && Org(org) == old(Org(org)) - part && |hosts| + |part| == |old(hosts)|
      ensures OnlyDeletedIn(org, old(hosts), hosts)
    {
      hide OrgOf, Keyed, LatestFirst, OnlyDeletedIn;
      var ids := set d | d in part :: d.id;
      RowsDeleted(hosts, part, org);
      StaysKeyed(hosts, ids);
      OnlyDeletes(hosts, part, ids, org);
      hosts := hosts - ids;
    }

    /** Some of the hosts, `n` if there are so many. */
    method SomeOf(hosts: set<Host>, n: nat) returns (part: set<Host>)
      requires hosts != {} && n > 0
      ensures part <= hosts && part != {} && |part| <= n
    {
      part := {};
      while |part| < n && part != hosts
        invariant part <= hosts && |part| <= n
        decreases n - |part|
      {
        assert hosts - part != {};
        var h :| h in hosts - part;
        part := part + {h};
      }
    }

    /** The body of the outer loop: finds a page's duplicates and deletes them. */
    method ProcessPage(page: seq<Host>, org: string, dryRun: bool, chunk: nat, useSubmanId: bool,
                       ghost run: Run, ghost cursor: int, ghost total: nat) returns (r: Result<nat, Stopped>)
      requires Valid() && IsPage(page, Org(org), cursor, chunk) && page != [] && chunk > 0
      requires Progress(run, Org(org), cursor, total, dryRun) && run.useSubmanId == useSubmanId
      requires run.consistent ==> ConsistentTies(first, run.all, run.useSubmanId, run.rank)
      modifies this
      ensures Valid() && Safe(run, Org(org))
      ensures r.Ok? ==> Progress(run, Org(org), page[|page| - 1].id, total + r.value, dryRun)
      ensures r.Err? ==> !dryRun && MayStop(stops)
      ensures dryRun ==> hosts == old(hosts)
      ensures !dryRun && r.Ok? ==> |hosts| + r.value == |old(hosts)|
      ensures AllSettled(old(Org(org)), useSubmanId) ==> r == Ok(0) && hosts == old(hosts)
      ensures Org(org) <= old(Org(org)) && OnlyDeletedIn(org, old(hosts), hosts)
      ensures GoneSuperseded(old(Org(org)), Org(org), run)
    {
      hide GoneSuperseded;
      hide OrgOf, Keyed, Progress, IsPage, Duplicates, Safe, AllSettled, AreDuplicates, OnlyDeletedIn, LatestFirst;
      hide ConsistentTies, Decided, PickedFrom;
      PageIsDistinct(page, Org(org), cursor, chunk);
      ProgressIsSafe(run, Org(org), cursor, total, dryRun);
      SafeIsSubset(run, Org(org));
      ghost var now := Org(org);
      var dups := FindDuplicates(page, org, useSubmanId);
      ghost var keeps := KeptFor(first, dups, Elements(page), now, useSubmanId);
      PickedIsDecided(first, run, keeps, Elements(page), now);
      DuplicatesAreStored(keeps, Elements(page), now, useSubmanId);
      PageProgress(run, now, cursor, total, dryRun, page, chunk, keeps);
      if AllSettled(now, useSubmanId) {
        DecidedIsValid(run, keeps, Elements(page), now);
        SettledHasNoDuplicates(keeps, Elements(page), now, useSubmanId);
      }
      NothingDeleted(org, hosts);
      r := Ok(0);
      if dups != {} {
        ghost var dead: set<Host>;
        r, dead := DeleteBatch(dups, org, dryRun, chunk);
        PageIsSafe(run, now, keeps, Elements(page), dead);
        DeadSuperseded(run, now, keeps, Elements(page), dead, Org(org));
        DryRunKeeps(dryRun, now, dead, Org(org));
      } else {
        assert now - dups == now;
        NothingGone(now, run);
      }
    }

    /** One whole run over an organisation.  `interrupt(n)` says whether the job is
        told to stop before page n. */
    method RunOrg(org: string, useSubmanId: bool, chunk: nat, dryRun: bool, interrupt: nat -> bool, ghost rank: Rank)
      returns (r: Result<nat, Stopped>)
      requires Valid()
      modifies this
      ensures Valid()
      // nothing else is touched
      ensures OnlyDeletedIn(org, old(hosts), hosts)
      ensures dryRun ==> r.Ok? && hosts == old(hosts)
      // only an interrupt of a deletion cuts the run short
      ensures !MayStop(stops) ==> r.Ok?
      // the count balances
      ensures !dryRun && r.Ok? ==> |hosts| + r.value == |old(hosts)|
      // a finished run is a fixpoint
      ensures !dryRun && chunk > 0 && r.Ok? && NeverTold(interrupt) ==> AllSettled(Org(org), useSubmanId)
      // from which another run deletes nothing
      ensures AllSettled(old(Org(org)), useSubmanId) ==> r == Ok(0) && hosts == old(hosts)
      // on the columns: what is gone was superseded, and a finished run leaves no two copies
      ensures forall i :: i in old(hosts) && i !in hosts ==> Superseded(old(hosts)[i], old(Org(org)), useSubmanId)
      ensures !dryRun && chunk > 0 && r.Ok? && NeverTold(interrupt) ==>
                forall i, j :: i in hosts && j in hosts && i != j && hosts[i].org == org && hosts[j].org == org ==>
                  !CopyOf(hosts[j], hosts[i], useSubmanId)
      ensures NoCopies(old(Org(org)), useSubmanId) ==> r == Ok(0) && hosts == old(hosts)
      // where one order decides all ties: however the run ends, every deleted host
      // leaves a copy behind that comes before it, and no more are deleted than are outdated
      ensures ConsistentTies(first, old(Org(org)), useSubmanId, rank) ==>
                && AllRepresented(Org(org), old(Org(org)), useSubmanId, rank)
                && |old(Org(org)) - Org(org)| <= |Outdated(old(Org(org)), useSubmanId, rank)|
      // and a finished dry run counts no less
      ensures ConsistentTies(first, old(Org(org)), useSubmanId, rank)
              && dryRun && chunk > 0 && NeverTold(interrupt) ==>
                r.value >= |Outdated(old(Org(org)), useSubmanId, rank)|
    {
      hide OrgOf, Keyed, Progress, IsPage, Outdated, AllSettled, AllRepresented, OnlyDeletedIn, LatestFirst;
      hide ConsistentTies, Safe, Accounted, Superseded, CopyOf, NoCopies, GoneSuperseded;
      SettledIff(Org(org), useSubmanId);
      ghost var run := Run(Org(org), useSubmanId, rank, ConsistentTies(first, Org(org), useSubmanId, rank));
      KeyedUnique(hosts, org);
      r := RunPages(org, useSubmanId, chunk, dryRun, interrupt, run);
      SafeSaysIf(run, Org(org));
      RowsOf(org, old(hosts), hosts);
      SupersededOf(run, Org(org));
      NoCopiesInRows(org, hosts, useSubmanId);
    }

    /** The outer loop. */
    method RunPages(org: string, useSubmanId: bool, chunk: nat, dryRun: bool, interrupt: nat -> bool, ghost run: Run)
      returns (r: Result<nat, Stopped>)
      requires Valid() && run.all == Org(org) && run.useSubmanId == useSubmanId && UniqueIds(run.all)
      requires forall h :: h in run.all ==> h.id > -1
      requires run.consistent ==> ConsistentTies(first, run.all, useSubmanId, run.rank)
      modifies this
      ensures Valid() && Safe(run, Org(org)) && OnlyDeletedIn(org, old(hosts), hosts)
      ensures GoneSuperseded(run.all, Org(org), run)
      ensures r.Err? ==> !dryRun && MayStop(stops)
      ensures r.Ok? ==> if dryRun then hosts == old(hosts) else |hosts| + r.value == |old(hosts)|
      ensures AllSettled(run.all, useSubmanId) ==> r == Ok(0) && hosts == old(hosts)
      ensures r.Ok? && chunk > 0 && NeverTold(interrupt) ==>
        if dryRun then run.consistent ==> r.value >= |Outdated(run.all, useSubmanId, run.rank)|
        else AllSettled(Org(org), useSubmanId)
    {
      hide OrgOf, Keyed, Progress, IsPage, Outdated, AllSettled, After, OnlyDeletedIn, LatestFirst;
      hide ConsistentTies, Safe, Accounted, UniqueIds, MayStop, NeverTold, GoneSuperseded;
      ghost var settled := AllSettled(run.all, useSubmanId);
      NothingAccounted(org, hosts, dryRun, settled, run);
      ProgressStarts(run, dryRun);
      var total := 0;
      var cursor: int, n: nat := -1, 0;
      var page := NextPage(org, cursor, chunk);
      while page != [] && !interrupt(n)
        invariant Valid() && IsPage(page, Org(org), cursor, chunk) && |page| <= chunk
        invariant Accounted(org, old(hosts), hosts, total, dryRun, settled, run)
        invariant Progress(run, Org(org), cursor, total, dryRun)
        decreases |After(Org(org), cursor)|
      {
        ghost var before := hosts;
        AccountedSays(org, old(hosts), hosts, total, dryRun, settled, run);
        var done, next := OnePage(page, org, dryRun, chunk, useSubmanId, run, cursor, total);
        AccountedMore(org, old(hosts), before, hosts, total, done, dryRun, settled, run);
        if done.Err? {
          return done;
        }
        total, cursor, page, n := total + done.value, page[|page| - 1].id, next, n + 1;
      }
      AccountedSays(org, old(hosts), hosts, total, dryRun, settled, run);
      ToldAt(interrupt, n);
      RunEnds(run, Org(org), cursor, total, dryRun, chunk, page);
      r := Ok(total);
    }

    /** One turn of the outer loop: a page, and the query for the next. */
    method OnePage(page: seq<Host>, org: string, dryRun: bool, chunk: nat, useSubmanId: bool,
                   ghost run: Run, cursor: int, ghost total: nat)
      returns (r: Result<nat, Stopped>, next: seq<Host>)
      requires Valid() && IsPage(page, Org(org), cursor, chunk) && page != [] && chunk > 0
      requires Progress(run, Org(org), cursor, total, dryRun) && run.useSubmanId == useSubmanId
      requires run.consistent ==> ConsistentTies(first, run.all, run.useSubmanId, run.rank)
      modifies this
      ensures Valid() && Safe(run, Org(org)) && OnlyDeletedIn(org, old(hosts), hosts)
      ensures GoneSuperseded(old(Org(org)), Org(org), run)
      ensures r.Ok? ==>
        && var last := page[|page| - 1].id;
           IsPage(next, Org(org), last, chunk) && |next| <= chunk
           && Progress(run, Org(org), last, total + r.value, dryRun)
           && |After(Org(org), last)| < |After(old(Org(org)), cursor)|
      ensures r.Ok? ==> if dryRun then hosts == old(hosts) else |hosts| + r.value == |old(hosts)|
      ensures r.Err? ==> !dryRun && MayStop(stops)
      ensures AllSettled(old(Org(org)), useSubmanId) ==> r == Ok(0) && hosts == old(hosts)
    {
      hide OrgOf, Keyed, Progress, IsPage, AllSettled, After, OnlyDeletedIn, LatestFirst;
      hide ConsistentTies, Safe, UniqueIds, MayStop, GoneSuperseded;
      next := [];
      ghost var now := Org(org);
      r := ProcessPage(page, org, dryRun, chunk, useSubmanId, run, cursor, total);
      if r.Ok? {
        PageShortens(page, now, Org(org), cursor, chunk);
        next := NextPage(org, page[|page| - 1].id, chunk);
      }
    }
  }

  /** What is gone from the table is gone from its organisation, and what is left there is
      left of it. */
  lemma RowsOf(org: string, before: map<nat, Host>, after: map<nat, Host>)
    requires Keyed(before) && OnlyDeletedIn(org, before, after)
    ensures forall i :: i in before && i !in after ==> before[i] in OrgOf(before, org) - OrgOf(after, org)
    ensures forall i :: i in after && after[i].org == org ==> after[i] in OrgOf(after, org)
  {
  }

  lemma NoCopiesInRows(org: string, hosts: map<nat, Host>, useSubmanId: bool)
    requires Keyed(hosts)
    ensures AllSettled(OrgOf(hosts, org), useSubmanId) ==>
      forall i, j :: i in hosts && j in hosts && i != j && hosts[i].org == org && hosts[j].org == org ==>
        !CopyOf(hosts[j], hosts[i], useSubmanId)
  {
    SettledIff(OrgOf(hosts, org), useSubmanId);
    hide AllSettled, CopyOf;
  }

  lemma SafeSaysIf(run: Run, now: set<Host>)
    requires Safe(run, now)
    ensures run.consistent ==>
      && AllRepresented(now, run.all, run.useSubmanId, run.rank)
      && |run.all - now| <= |Outdated(run.all, run.useSubmanId, run.rank)|
  {
    if run.consistent {
      SafeSays(run, now);
    }
  }

  lemma SupersededOf(run: Run, now: set<Host>)
    requires GoneSuperseded(run.all, now, run)
    ensures forall d :: d in run.all - now ==> Superseded(d, run.all, run.useSubmanId)
  {}

  lemma ProgressIsSafe(run: Run, now: set<Host>, cursor: int, total: nat, dryRun: bool)
    requires Progress(run, now, cursor, total, dryRun)
    ensures Safe(run, now)
  {}

  lemma RunEnds(run: Run, now: set<Host>, cursor: int, total: nat, dryRun: bool, chunk: nat, page: seq<Host>)
    requires Progress(run, now, cursor, total, dryRun) && IsPage(page, now, cursor, chunk)
    ensures Safe(run, now)
    ensures page == [] && chunk > 0 ==>
      if dryRun then run.consistent ==> total >= |Outdated(run.all, run.useSubmanId, run.rank)|
      else AllSettled(now, run.useSubmanId)
  {
    hide Progress, Outdated, AllSettled;
    ProgressIsSafe(run, now, cursor, total, dryRun);
    if page == [] && chunk > 0 {
      ProgressEnds(run, now, cursor, total, dryRun, chunk);
    }
  }

  lemma DecidedIsValid(run: Run, keeps: map<Host, Host>, page: set<Host>, now: set<Host>)
    requires Decided(run, keeps, page, now)
    ensures ValidKeeps(keeps, page, now, run.useSubmanId)
  {}

  lemma DryRunKeeps(dryRun: bool, now: set<Host>, dead: set<Host>, after: set<Host>)
    requires after == now - dead
    ensures after <= now
  {}

  lemma FirstIsFound(first: FirstRow, q: nat, found: set<Host>)
    requires LatestFirst(first) && found != {}
    ensures first(q, found) in found
  {
    assert ComesFirst(first(q, found), found);
  }

  lemma PickOneMore(first: FirstRow, keeps: map<Host, Host>, page: set<Host>, all: set<Host>, useSubmanId: bool, x: Host, q: nat)
    requires PickedFrom(first, keeps, page, all, useSubmanId) && x !in page
    ensures PickedFrom(first, keeps[x := first(q, Matching(x, all, useSubmanId))], page + {x}, all, useSubmanId)
  {
    hide Matching;
  }

  lemma OnlyDeletes(hosts: map<nat, Host>, part: set<Host>, ids: set<nat>, org: string)
    requires Keyed(hosts) && part <= OrgOf(hosts, org) && ids == set d | d in part :: d.id
    ensures OnlyDeletedIn(org, hosts, hosts - ids)
  {
    forall i | i in hosts && hosts[i].org != org ensures i !in ids {
      forall d | d in part ensures d.id != i {
        assert d in OrgOf(hosts, org);
      }
    }
  }

  lemma PartMoves(all: set<Host>, dups: set<Host>, rest: set<Host>, part: set<Host>)
    requires part <= rest <= dups <= all && part != {}
    ensures part <= all - (dups - rest)
    ensures all - (dups - rest) - part == all - ((dups - rest) + part)
    ensures dups - (rest - part) == (dups - rest) + part
    ensures |(dups - rest) + part| == |dups - rest| + |part| && |rest - part| < |rest|
  {
    assert rest == (rest - part) + part && |rest| == |rest - part| + |part|;
  }
}
