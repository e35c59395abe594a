/** The workspace operations on the mutable tables.  Every public operation runs
    in one transaction: it commits a state in which the association table and the
    host rows agree, or rolls everything back. */
module Workspace {
  import opened Common
  import opened WorkspaceState

  /** What a patch may set: the name, the host list, or something else only. */
  datatype Patch = Patch(name: Option<string>, hostIds: Option<seq<HostId>>, other: bool)

  datatype Operation =
    | CreateGroup(name: string, ids: seq<HostId>, org: OrgId, given: Option<GroupId>)
    | CreateHost(h: HostId, org: OrgId, canCreate: bool)
    | DeleteHost(h: HostId)
    | AddHosts(g: GroupId, ids: seq<HostId>, org: OrgId)
    | RemoveHosts(g: GroupId, ids: seq<HostId>, org: OrgId, canCreate: bool)
    | PatchGroup(g: GroupId, org: OrgId, patch: Patch, canCreate: bool)
    | DeleteGroups(gs: set<GroupId>, org: OrgId, canCreate: bool)

  /** What an operation does to a committed state, host by host: all of it or nothing. */
  ghost predicate Effect(op: Operation, s: Db, t: Db) {
    match op
    case CreateGroup(name, ids, org, given) => Created(s, t, name, ids, org, given)
    case CreateHost(h, org, canCreate) =>
      if h !in s.hosts && (canCreate || HasUngrouped(s, org)) then
        exists u :: && UngroupedIn(t, u, org) && GrewBy(s.groups, t.groups, u) && t.home == s.home[h := u]
                    && h in t.hosts && t.hosts[h].org == org && SameOrgs(t.hosts - {h}, s.hosts)
      else t == s
    case DeleteHost(h) => t == Db(s.hosts - {h}, s.groups, s.home - {h})
    case AddHosts(g, ids, org) =>
      if Known(s, Elements(ids), org) && (ids == [] || InOrg(s, g, org)) && NewOnce(s, ids, g) then
        Rehomed(s, t, Elements(ids), g) && t.groups == s.groups
      else t == s
    case RemoveHosts(g, ids, org, canCreate) =>
      if canCreate || HasUngrouped(s, org) then
        exists u :: && UngroupedIn(t, u, org) && GrewBy(s.groups, t.groups, u)
                    && Rehomed(s, t, AtHome(s, Elements(ids), g, org), u)
      else t == s
    case PatchGroup(g, org, patch, canCreate) => Patched(s, t, g, org, patch, canCreate)
    case DeleteGroups(gs, org, canCreate) => Deleted(s, t, gs, org, canCreate)
  }

  ghost predicate Created(s: Db, t: Db, name: string, ids: seq<HostId>, org: OrgId, given: Option<GroupId>) {
    if org != "" && name != "" && (given.Some? ==> given.value !in s.groups) && Known(s, Elements(ids), org) && Distinct(ids) then
      exists g :: && g !in s.groups && (given.Some? ==> g == given.value)
                  && t.groups == s.groups[g := GroupRow(org, name, false)] && Rehomed(s, t, Elements(ids), g)
    else t == s
  }

  ghost predicate Patched(s: Db, t: Db, g: GroupId, org: OrgId, patch: Patch, canCreate: bool) {
    if && InOrg(s, g, org) && !s.groups[g].ungrouped
       && (patch.name.Some? || patch.hostIds.Some? || patch.other)
       && (patch.hostIds.Some? ==> Known(s, Elements(patch.hostIds.value), org) && (canCreate || HasUngrouped(s, org)))
    then exists u :: PatchedWith(s, t, g, org, patch, u)
    else t == s
  }

  /** Under its new name, if it has one, the group has the hosts listed, if there is a
      list; its other hosts are in the ungrouped workspace `u`. */
  predicate PatchedWith(s: Db, t: Db, g: GroupId, org: OrgId, patch: Patch, u: GroupId)
    requires g in s.groups
  {
    && GrewBy(if patch.name.Some? then s.groups[g := s.groups[g].(name := patch.name.value)] else s.groups, t.groups, u)
    && SameOrgs(t.hosts, s.hosts) && t.home.Keys == s.home.Keys
    && (patch.hostIds.None? ==> t.home == s.home)
    && (patch.hostIds.Some? ==> UngroupedIn(t, u, org))
    && (patch.hostIds.Some? ==> forall h :: h in s.home && h in t.home ==>
          t.home[h] == if h in patch.hostIds.value then g else if s.home[h] == g then u else s.home[h])
  }

  /** `order` is the order in which the groups are found. */
  ghost predicate Deleted(s: Db, t: Db, gs: set<GroupId>, org: OrgId, canCreate: bool) {
    exists order: seq<GroupId> ::
      && Distinct(order) && (forall g :: g in order <==> g in gs && InOrg(s, g, org))
      && if CanEmptyAll(s, order, org, canCreate) then exists u :: DeletedInto(s, t, order, org, u) else t == s
  }

  /** The groups are gone, and their hosts are in the ungrouped workspace `u`. */
  predicate DeletedInto(s: Db, t: Db, order: seq<GroupId>, org: OrgId, u: GroupId) {
    var victims := set h | h in s.home && s.home[h] in order;
    && (forall g :: g in s.groups ==> if g in order then g !in t.groups else g in t.groups && t.groups[g] == s.groups[g])
    && Rehomed(s, t, victims, u) && (victims != {} ==> UngroupedIn(t, u, org))
  }

  /** Nobody interferes. */
  ghost predicate NoKills(kills: nat -> set<HostId>) {
    forall n :: kills(n) == {}
  }

  class Inventory {
    var hosts: Hosts
    var groups: Groups
    var assocs: set<Assoc>
    var nextGroupId: GroupId
    ghost var home: Home   // where each host is associated

    ghost function State(): Db
      reads this
    {
      Db(hosts, groups, home)
    }

    /** What holds even in the middle of a transaction. */
    ghost predicate Consistent()
      reads this
    {
      && assocs == AssocsOf(hosts, home)
      && Sane(State())
      && (forall g :: g in groups ==> g < nextGroupId)
    }

    /** What every committed state satisfies. */
    ghost predicate Valid()
      reads this
    {
      Consistent() && Good(State())
    }

    constructor ()
      ensures Valid() && State() == Db(map[], map[], map[])
    {
      hosts, groups, assocs, nextGroupId, home := map[], map[], {}, 0, map[];
    }

    /* ---------- steps inside a transaction ---------- */

    /** Inserts one row per listed host; duplicate rows and an unknown group
        violate the table's keys. */
    method InsertAssocs(group: GroupId, ids: seq<HostId>, org: OrgId) returns (ok: bool)
      requires forall h :: h in ids ==> h !in Rows(assocs, group, org)
      modifies `assocs
      ensures ok <==> Distinct(ids) && (ids == [] || group in groups)
      ensures ok ==> assocs == old(assocs) + RowsFor(ids, group, org)
    {
      for i := 0 to |ids|
        invariant assocs == old(assocs) + RowsFor(ids[..i], group, org)
        invariant Distinct(ids[..i]) && (i == 0 || group in groups)
      {
        if Assoc(ids[i], group, org) in assocs || group !in groups {
          assert Assoc(ids[i], group, org) in old(assocs) ==> ids[i] in Rows(old(assocs), group, org);
          assert Assoc(ids[i], group, org) in assocs ==> ids[i] in ids[..i];
          return false;
        }
        assocs := assocs + {Assoc(ids[i], group, org)};
        assert ids[..i + 1] == ids[..i] + [ids[i]];
        assert ids[i] !in ids[..i];
      }
      assert ids[..|ids|] == ids;
      ok := true;
    }

    /** Puts existing hosts of the organisation into a group, taking them out of
        any other.  Fails on an unknown host, on a host named twice that was not
        in the group yet (duplicate row), and on an unknown group. */
    method AddHosts(group: GroupId, ids: seq<HostId>, org: OrgId) returns (ok: bool)
      requires Consistent()
      modifies `assocs, `home
      ensures ok <==>
                && Known(State(), Elements(ids), org)
                && var rows := NotYetIn(ids, Rows(old(assocs), group, org));
                   Distinct(rows) && (rows == [] || group in groups)
      ensures ok ==> Consistent() && State() == Move(old(State()), Elements(ids), group)
    {
      hide AssocsOf, Sane, OthersDropped, RowsFor;
      if !(forall h :: h in ids ==> h in hosts && hosts[h].org == org) {
        return false;
      }
      var rows := NotYetIn(ids, Rows(assocs, group, org));
      MoveAssocs(hosts, home, ids, group, org);
      NewRows(hosts, home, ids, group, org);
      assert ids != [] && rows == [] ==> group in groups by {
        if ids != [] && rows == [] {
          assert ids[0] in ids;
          HomeIsAGroup(State(), ids[0]);
        }
      }
      ghost var before := State();
      assocs := OthersDropped(assocs, ids, group, org);
      ok := InsertAssocs(group, rows, org);
      if ok {
        MoveSane(before, Elements(ids), group, org);
        home := Moved(home, Elements(ids), group);
      }
    }

    /** The move of a list already known to be good. */
    method MoveHosts(group: GroupId, ids: seq<HostId>, org: OrgId)
      requires Consistent() && group in groups && Distinct(ids) && Known(State(), Elements(ids), org)
      modifies `assocs, `home
      ensures Consistent() && State() == Move(old(State()), Elements(ids), group)
    {
      hide AssocsOf, Sane, Moved;
      NotYetInElements(ids, Rows(assocs, group, org));
      var ok := AddHosts(group, ids, org);
    }

    /** Takes the named hosts out of a group; only hosts that were in it count. */
    method RemoveHosts(group: GroupId, ids: set<HostId>, org: OrgId) returns (removed: seq<HostId>)
      requires Consistent()
      modifies `assocs, `home
      ensures Consistent() && Distinct(removed)
      ensures Elements(removed) ==
        if InOrg(old(State()), group, org) then AtHome(old(State()), ids, group, org) else {}
      ensures State() == Drop(old(State()), Elements(removed))
    {
      hide AssocsOf;
      removed := [];
      if group !in groups || groups[group].org != org {
        assert home - {} == home;
        return;
      }
      ghost var gone := AtHome(State(), ids, group, org);
      var found := set a | a in assocs && a.org == org && a.group == group && a.host in ids;
      FoundRows(State(), ids, group, org, found);
      var todo := found;
      while todo != {}
        invariant todo <= found && assocs == old(assocs) - (found - todo)
        invariant Distinct(removed) && home == old(home)
        invariant forall h :: h in removed <==> Assoc(h, group, org) in found - todo
      {
        var a :| a in todo;
        assert a == Assoc(a.host, group, org) && a.host !in removed;
        assocs, todo, removed := assocs - {a}, todo - {a}, removed + [a.host];
      }
      assert Elements(removed) == gone;
      DropAssocs(State(), ids, group, org);
      home := home - gone;
    }

    /** Copies a group onto the rows of the named hosts of the organisation. */
    method UpdateHosts(ids: seq<HostId>, group: GroupId, org: OrgId) returns (ok: bool)
      requires Consistent()
      modifies `hosts
      ensures ok <==> ids == [] || InOrg(State(), group, org)
      ensures !ok ==> hosts == old(hosts)
      ensures ok ==> Consistent() && State() == Show(old(State()), Elements(ids), group, org)
    {
      hide AssocsOf, Sane;
      if ids == [] {
        assert Show(State(), {}, group, org) == State();
        return true;
      }
      if group !in groups || groups[group].org != org {
        return false;
      }
      ShowSane(State(), Elements(ids), group, org);
      var serialized := [GroupRef(group, groups[group].name)];
      hosts := map h | h in hosts ::
        if h in ids && hosts[h].org == org then hosts[h].(groups := serialized) else hosts[h];
      assert State() == Show(old(State()), Elements(ids), group, org);
      ok := true;
    }

    /** Finds the organisation's ungrouped workspace, or creates it if it can. */
    method UngroupedGroup(org: OrgId, canCreate: bool) returns (r: Option<GroupId>)
      requires Consistent()
      modifies `groups, `nextGroupId
      ensures Consistent() && nextGroupId >= old(nextGroupId)
      ensures r.None? <==> !canCreate && !HasUngrouped(old(State()), org)
      ensures r.None? ==> groups == old(groups)
      ensures r.Some? ==> UngroupedIn(State(), r.value, org) && GrewBy(old(groups), groups, r.value)
      ensures HasUngrouped(old(State()), org) ==> groups == old(groups)
      ensures r.Some? ==> groups == old(groups) || r.value >= old(nextGroupId)
    {
      hide AssocsOf;
      if g :| g in groups && groups[g].org == org && groups[g].ungrouped {
        return Some(g);
      }
      if !canCreate {
        return None;
      }
      r := Some(nextGroupId);
      groups := groups[nextGroupId := GroupRow(org, "Ungrouped Hosts", true)];
      nextGroupId := nextGroupId + 1;
    }

    method SetToSeq<T(==)>(s: set<T>) returns (r: seq<T>)
      ensures Distinct(r) && Elements(r) == s
    {
      r := [];
      var todo := s;
      while todo != {}
        invariant Distinct(r) && todo <= s && forall h :: h in r <==> h in s - todo
      {
        var h :| h in todo;
        assert h !in r;
        todo, r := todo - {h}, r + [h];
      }
    }

    /** What a failing operation leaves: its transaction is rolled back. */
    method Rollback(h: Hosts, g: Groups, a: set<Assoc>, ghost m: Home)
      modifies `hosts, `groups, `assocs, `home
      ensures hosts == h && groups == g && assocs == a && home == m
    {
      hosts, groups, assocs, home := h, g, a, m;
    }

    /* ---------- operations ---------- */

    method AddHostsToGroup(group: GroupId, ids: seq<HostId>, org: OrgId) returns (ok: bool)
      requires Valid()
      modifies this
      ensures Valid()
      ensures ok <==>
                && Known(old(State()), Elements(ids), org)
                && (ids == [] || InOrg(old(State()), group, org))
                && Distinct(NotYetIn(ids, Rows(old(assocs), group, org)))
      ensures ok ==> home == Moved(old(home), Elements(ids), group) && groups == old(groups) && SameOrgs(hosts, old(hosts))
      ensures !ok ==> State() == old(State())
    {
      hide AssocsOf, Sane, GoodExcept, Moved, SameOrgs;
      var h0, g0, a0 := hosts, groups, assocs;
      ghost var m0 := home;
      ok := AddHosts(group, ids, org);
      if ok {
        ok := UpdateHosts(ids, group, org);
      }
      if ok {
        MoveShow(Db(h0, g0, m0), {}, Elements(ids), group, org);
        assert {} - Elements(ids) == {};
      } else {
        Rollback(h0, g0, a0, m0);
      }
    }

    /** Returns how many hosts left the group; they go to the ungrouped workspace. */
    method RemoveHostsFromGroup(group: GroupId, ids: seq<HostId>, org: OrgId, canCreate: bool)
      returns (count: Option<nat>, ghost u: GroupId)
      requires Valid()
      modifies this
      ensures Valid()
      ensures count.None? <==> !canCreate && !HasUngrouped(old(State()), org)
      ensures count.Some? ==>
                var left := AtHome(old(State()), Elements(ids), group, org);
                && count.value == |left|
                && home == Moved(old(home), left, u)
                && SameOrgs(hosts, old(hosts))
                && UngroupedIn(State(), u, org)
                && GrewBy(old(groups), groups, u)
      ensures count.None? ==> State() == old(State())
    {
      hide AssocsOf, Sane, GoodExcept, Moved, SameOrgs, OneUngroupedEach, Rows, NotYetIn;
      var h0, g0, a0 := hosts, groups, assocs;
      ghost var m0 := home;
      u := 0;
      ghost var left := AtHome(State(), Elements(ids), group, org);
      NobodyAtHome(State(), Elements(ids), group, org);
      var removed := RemoveHosts(group, Elements(ids), org);
      assert Elements(removed) == left;
      var found := UngroupedGroup(org, canCreate);
      if found.None? {
        Rollback(h0, g0, a0, m0);
        count := None;
      } else {
        u := found.value;
        SaneGroups(State());
        MoveHosts(found.value, removed, org);
        var ok := UpdateHosts(removed, found.value, org);
        ResettledGood(Db(h0, g0, m0), groups, left, u, org);
        DistinctSize(removed);
        count := Some(|removed|);
      }
    }

    method RenameGroup(group: GroupId, name: string)
      requires Consistent() && group in groups
      modifies `groups
      ensures Consistent() && State() == Renamed(old(State()), group, name)
    {
      hide AssocsOf;
      groups := groups[group := groups[group].(name := name)];
    }

    /** Makes `wanted` the members of a group: newcomers join, the others leave for
        the ungrouped workspace, and all their rows are rewritten. */
    method ReplaceHosts(group: GroupId, org: OrgId, wanted: set<HostId>, existing: set<HostId>, canCreate: bool)
      returns (ok: bool, ghost u: GroupId)
      requires Consistent() && InOrg(State(), group, org) && !groups[group].ungrouped
      requires existing == Members(home, group) && GoodExcept(State(), existing) && Known(State(), existing, org)
      modifies this
      ensures nextGroupId >= old(nextGroupId)
      ensures ok <==> Known(old(State()), wanted, org) && (canCreate || HasUngrouped(old(State()), org))
      ensures ok ==>
                && Valid() && SameOrgs(hosts, old(hosts))
                && UngroupedIn(State(), u, org) && GrewBy(old(groups), groups, u)
                && home == Moved(Moved(old(home), existing, u), wanted, group)
                && Members(home, group) == wanted
    {
      hide AssocsOf, Sane, GoodExcept, Moved, SameOrgs, OneUngroupedEach, Members;
      ghost var before := State();
      u := 0;
      var added := SetToSeq(wanted - existing);
      var gone := SetToSeq(existing - wanted);
      NotYetInElements(added, Rows(assocs, group, org));
      hide Rows, NotYetIn;
      ok := AddHosts(group, added, org);
      if !ok {
        assert !Known(before, wanted, org) by { assert Elements(added) <= wanted; }
        return;
      }
      assert Known(before, wanted, org) by {
        forall h | h in wanted ensures h in before.hosts && before.hosts[h].org == org {
          assert h in existing || h in Elements(added);
        }
      }
      WhoLeaves(before, wanted, group, org);
      var removed := RemoveHosts(group, Elements(gone), org);
      var found := UngroupedGroup(org, canCreate);
      if found.None? {
        ok := false;
        return;
      }
      u := found.value;
      SaneGroups(State());
      MoveHosts(found.value, gone, org);
      var all := SetToSeq(wanted);
      ok := UpdateHosts(gone, found.value, org);
      ok := UpdateHosts(all, group, org);
      ReplacedGood(before, groups, wanted, group, u, org);
      assert State() == Replaced(before, groups, wanted, group, u, org);
    }

    /** Changes a workspace's name, or its host list, or both. */
    method PatchGroup(group: GroupId, org: OrgId, patch: Patch, canCreate: bool) returns (ok: bool, ghost u: GroupId)
      requires Valid() && InOrg(State(), group, org)
      modifies this
      ensures Valid()
      ensures ok <==>
                && !old(groups)[group].ungrouped
                && (patch.name.Some? || patch.hostIds.Some? || patch.other)
                && (patch.hostIds.Some? ==>
                      && Known(old(State()), Elements(patch.hostIds.value), org)
                      && (canCreate || HasUngrouped(old(State()), org)))
      ensures ok ==>
                && SameOrgs(hosts, old(hosts))
                && GrewBy(if patch.name.Some? then Renamed(old(State()), group, patch.name.value).groups else old(groups),
                          groups, u)
      ensures ok && patch.hostIds.None? ==> home == old(home)
      ensures ok && patch.hostIds.None? && patch.name.None? ==> groups == old(groups)
      ensures ok && patch.hostIds.None? && patch.name.Some? ==> groups == Renamed(old(State()), group, patch.name.value).groups
      ensures ok && patch.hostIds.Some? ==>
                && Members(home, group) == Elements(patch.hostIds.value)
                && UngroupedIn(State(), u, org)
                && home == Moved(Moved(old(home), Members(old(home), group), u), Elements(patch.hostIds.value), group)
      ensures !ok ==> State() == old(State())
    {
      hide AssocsOf, Sane, GoodExcept, Moved, OneUngroupedEach, Members, Rows;
      var h0, g0, a0 := hosts, groups, assocs;
      ghost var before := State();
      u := 0;
      ok := !groups[group].ungrouped && (patch.name.Some? || patch.hostIds.Some? || patch.other);
      if !ok {
        return;
      }
      var existing := Rows(assocs, group, org);
      RowsAreMembers(State(), group, org);
      RenamedGood(before, group, if patch.name.Some? then patch.name.value else groups[group].name);
      if patch.name.Some? {
        RenameGroup(group, patch.name.value);
      }
      ghost var renamed := State();
      assert GoodExcept(renamed, existing);
      if patch.hostIds.Some? {
        ok, u := ReplaceHosts(group, org, Elements(patch.hostIds.value), existing, canCreate);
      } else if patch.name.Some? {
        var members := SetToSeq(existing);
        ok := UpdateHosts(members, group, org);
        MoveShow(renamed, existing, existing, group, org);
        MembersStay(renamed.home, group);
        assert existing - existing == {};
      }
      if !ok {
        Rollback(h0, g0, a0, before.home);
      }
    }

    /** Another session deletes hosts; their associations go with them. */
    method Kill(dead: set<HostId>)
      requires Consistent()
      modifies `hosts, `assocs, `home
      ensures Consistent() && State() == Killed(old(State()), dead)
    {
      hide AssocsOf, Sane;
      KilledSane(State(), dead);
      CascadeAssocs(hosts, home, dead);
      hosts := hosts - dead;
      assocs := set a | a in assocs && a.host !in dead;
      home := home - dead;
    }

    /** One attempt, under a savepoint, to move `ids` out of `group` while other
        sessions delete hosts before each statement. */
    method TryMove(group: GroupId, u: GroupId, ids: seq<HostId>, org: OrgId, k1: set<HostId>, k2: set<HostId>, k3: set<HostId>)
      returns (ok: bool, ghost dead: set<HostId>)
      requires Consistent() && u in groups && Distinct(ids) && Known(State(), Elements(ids), org)
      modifies `hosts, `assocs, `home
      ensures Consistent() && dead == k1 + k2 + k3
      ensures ok ==> State() == Move(Killed(old(State()), dead), Elements(ids), u) && Elements(ids) !! dead
      ensures !ok ==> State() == Killed(old(State()), dead) && exists h :: h in ids && h in dead
    {
      hide AssocsOf, Sane, Moved, OneUngroupedEach, AtHome, RowsFor, OthersDropped, Members, SameOrgs;
      var savepoint := assocs;
      ghost var before := State();
      assert home.Keys <= hosts.Keys by { HomesAreHosts(State()); }
      Kill(k1);
      var removed := RemoveHosts(group, Elements(ids), org);
      ghost var gone := Elements(removed);
      ghost var afterRemove := State();
      Kill(k2);
      KilledTwice(afterRemove, k2, k3);
      // the validating query, then the insert with its foreign key
      ok := forall h :: h in ids ==> h in hosts && hosts[h].org == org;
      Kill(k3);
      dead := k1 + k2 + k3;
      assert hosts == before.hosts - dead;
      if ok {
        NotYetInElements(ids, Rows(assocs, u, org));
        hide Rows, NotYetIn;
        ghost var now := State();
        assert now == Killed(Drop(Killed(before, k1), gone), k2 + k3);
        ok := AddHosts(u, ids, org);
        if ok {
          assert k1 + (k2 + k3) == dead;
          AtHomeSubset(Killed(before, k1), Elements(ids), group, org);
          MovedDespiteDeaths(before, k1, k2 + k3, Elements(ids), gone, u, org);
        }
      }
      if !ok {
        SomeoneDied(before, dead, ids, hosts, org);
        RestoreSavepoint(savepoint, before, dead);
      }
    }

    /** Undoes the changes since a savepoint, but not the deletions of others. */
    method RestoreSavepoint(savepoint: set<Assoc>, ghost before: Db, ghost dead: set<HostId>)
      requires Sane(before) && savepoint == AssocsOf(before.hosts, before.home)
      requires hosts == before.hosts - dead && groups == before.groups && forall g :: g in groups ==> g < nextGroupId
      modifies `assocs, `home
      ensures Consistent() && State() == Killed(before, dead)
    {
      hide AssocsOf, OneUngroupedEach;
      Undone(before, dead, hosts, savepoint);
      KilledSane(before, dead);
      assocs := set a | a in savepoint && a.host in hosts;
      home := map h | h in before.home && h in hosts :: before.home[h];
    }

    /** An attempt with its fresh list of the members that still exist. */
    method Attempt(group: GroupId, u: GroupId, hostIds: set<HostId>, org: OrgId, kills: nat -> set<HostId>, n: nat,
                   ghost start: Db, ghost earlier: set<HostId>)
      returns (ok: bool, ghost dead: set<HostId>)
      requires Consistent() && u in groups && Known(start, hostIds, org) && State() == Killed(start, earlier)
      modifies `hosts, `assocs, `home
      ensures Consistent()
      ensures NoKills(kills) && earlier == {} ==> dead == {}
      ensures ok ==> State() == Move(Killed(start, dead), hostIds - dead, u)
      ensures !ok ==> State() == Killed(start, dead) && |hostIds * dead| >= |hostIds * earlier| + 1
    {
      hide AssocsOf, Sane, Moved, OneUngroupedEach, Rows, NotYetIn, AtHome;
      Kill(kills(n));
      KilledTwice(start, earlier, kills(n));
      ghost var now := earlier + kills(n);
      var existing := SetToSeq(set h | h in hostIds && h in hosts && hosts[h].org == org);
      WhoSurvives(start, start, hostIds, now, org);
      assert Elements(existing) == hostIds - now;
      ghost var d: set<HostId>;
      ok, d := TryMove(group, u, existing, org, kills(n + 1), kills(n + 2), kills(n + 3));
      KilledTwice(start, now, d);
      dead := now + d;
      if ok {
        assert hostIds - now == hostIds - dead;
      } else {
        ghost var h :| h in existing && h in d;
        assert h in Elements(existing);
        StrictlyMore(hostIds * earlier, hostIds * dead, h);
      }
    }

    /** Up to three attempts. */
    method Retry(group: GroupId, u: GroupId, hostIds: set<HostId>, org: OrgId, kills: nat -> set<HostId>)
      returns (ok: bool, ghost dead: set<HostId>)
      requires Consistent() && u in groups && Known(State(), hostIds, org)
      modifies `hosts, `assocs, `home
      ensures Consistent()
      ensures NoKills(kills) ==> dead == {}
      ensures ok ==> State() == Move(Killed(old(State()), dead), hostIds - dead, u)
      ensures !ok ==> State() == Killed(old(State()), dead) && |hostIds * dead| >= 3
    {
      hide AssocsOf, Sane, NoKills, Killed, Move;
      ghost var start := State();
      dead := {};
      KilledNobody(start);
      ok := false;
      var attempt := 0;
      while attempt < 3 && !ok
        invariant Consistent() && 0 <= attempt <= 3 && groups == start.groups
        invariant NoKills(kills) ==> dead == {}
        invariant if ok then State() == Move(Killed(start, dead), hostIds - dead, u) else State() == Killed(start, dead)
        invariant !ok ==> |hostIds * dead| >= attempt
      {
        ok, dead := Attempt(group, u, hostIds, org, kills, 4 * attempt, start, dead);
        attempt := attempt + 1;
      }
    }

    /** Moves every member of a group to the ungrouped workspace, retrying when a
        host disappears under it.  `kills` says which hosts other sessions delete
        at each of the twelve points between statements. */
    method RemoveAllHosts(group: GroupId, org: OrgId, canCreate: bool, kills: nat -> set<HostId>)
      returns (ok: bool, ghost u: GroupId, ghost dead: set<HostId>)
      requires Consistent()
      modifies this
      ensures Consistent() && nextGroupId >= old(nextGroupId)
      ensures NoKills(kills) ==> dead == {}
      ensures ok ==>
                var members := AtHome(old(State()), old(home).Keys, group, org);
                && UngroupedIn(State(), u, org) && GrewBy(old(groups), groups, u)
                && (groups == old(groups) || u >= old(nextGroupId))
                && State() == Move(Killed(old(State()), dead).(groups := groups), members - dead, u)
      ensures ok ==> canCreate || HasUngrouped(old(State()), org)
      ensures HasUngrouped(old(State()), org) ==> groups == old(groups)
      ensures !ok ==> State() == Killed(old(State()), dead).(groups := groups)
      ensures !ok ==>
                || (!canCreate && !HasUngrouped(old(State()), org))
                || |AtHome(old(State()), old(home).Keys, group, org) * dead| >= 3
    {
      hide AssocsOf, Sane, Moved, OneUngroupedEach, Rows, AtHome, NoKills, HasUngrouped, GrewBy;
      ghost var before := State();
      KilledNobody(before);
      dead := {};
      var found := UngroupedGroup(org, canCreate);
      if found.None? {
        return false, 0, {};
      }
      u := found.value;
      KilledNobody(State());
      MoveNobody(State(), u);
      var hostIds := Rows(assocs, group, org);
      RowsAreAtHome(before, group, org);
      AtHomeKnown(before, before.home.Keys, group, org);
      if hostIds == {} {
        assert hostIds - dead == {};
        ok := true;
      } else {
        ok, dead := Retry(group, found.value, hostIds, org, kills);
      }
    }

    /** Deletes a group row unless associations still refer to it. */
    method DeleteGroupRow(group: GroupId) returns (ok: bool)
      requires Consistent()
      modifies `groups
      ensures ok <==> forall h :: h in home ==> home[h] != group
      ensures ok ==> Consistent() && groups == old(groups) - {group}
      ensures !ok ==> groups == old(groups)
    {
      ReferredTo(State(), group);
      hide AssocsOf;
      ok := forall a :: a in assocs ==> a.group != group;
      if ok {
        ShrunkSane(State(), group);
        groups := groups - {group};
      }
    }

    /** Empties and deletes one group, exactly unless the ungrouped workspace cannot be
        had or the group is the ungrouped workspace itself and not empty. */
    method DeleteGroup(group: GroupId, org: OrgId, canCreate: bool, ghost s: Db, ghost done: set<GroupId>) returns (ok: bool)
      requires Consistent() && Good(s) && Emptied(s, State(), done, org) && InOrg(s, group, org) && group !in done
      requires forall g :: g in s.groups ==> g < nextGroupId
      requires forall g :: g in done ==> InOrg(s, g, org)
      modifies this
      ensures nextGroupId >= old(nextGroupId)
      ensures ok <==> (canCreate || HasUngrouped(old(State()), org)) && (s.groups[group].ungrouped ==> NoMembers(old(State()), group))
      ensures ok ==> Consistent() && Emptied(s, State(), done + {group}, org)
      ensures ok && !canCreate ==> groups.Keys <= old(groups).Keys
    {
      hide AssocsOf, Sane, Emptied, OneUngroupedEach, AtHome, Moved, GoodExcept, HasUngrouped;
      ghost var d := State();
      ghost var u: GroupId, dead: set<HostId>;
      ok, u, dead := RemoveAllHosts(group, org, canCreate, _ => {});
      if ok {
        assert dead == {};
        KilledNobody(d);
        MembersAtHome(s, d, done, group, org);
        ghost var e := State();
        assert e == Move(d.(groups := e.groups), Members(d.home, group), u) by {
          assert Members(d.home, group) - {} == Members(d.home, group);
        }
        StillThereIff(s, d, e, done, group, u, org);
        ok := DeleteGroupRow(group);
        if ok {
          EmptiedStep(s, d, e, done, group, u, org);
        }
      } else {
        assert dead == {};
        assert AtHome(d, d.home.Keys, group, org) * {} == {};
      }
    }

    /** Empties and deletes all listed groups, one after the other. */
    method EmptyGroups(order: seq<GroupId>, org: OrgId, canCreate: bool, ghost s: Db) returns (ok: bool)
      requires Consistent() && Good(s) && State() == s && Distinct(order) && forall i :: 0 <= i < |order| ==> InOrg(s, order[i], org)
      modifies this
      ensures nextGroupId >= old(nextGroupId)
      ensures ok <==> CanEmptyAll(s, order, org, canCreate)
      ensures ok ==> Consistent() && Emptied(s, State(), Elements(order), org)
    {
      hide AssocsOf, Sane, OneUngroupedEach, GoodExcept, Emptied, HasUngrouped, InOrg, CanEmpty, NoMembers;
      EmptiedStart(s, org);
      assert Elements(order[..0]) == {};
      for i := 0 to |order|
        invariant Consistent() && nextGroupId >= old(nextGroupId)
        invariant EmptiedUpTo(s, State(), order, org, canCreate, i)
        invariant forall k :: 0 <= k < i ==> CanEmpty(s, order, org, canCreate, k)
      {
        OneMoreOf(order, i);
        NextGoesIff(s, State(), order, org, canCreate, i);
        ok := DeleteGroup(order[i], org, canCreate, s, Elements(order[..i]));
        if !ok {
          return;
        }
      }
      assert order[..|order|] == order;
      ok := true;
    }

    /** Deletes the workspaces of the organisation that are listed, `order` being the
        order in which a query returns them; their hosts go to the ungrouped one.  Returns
        how many were deleted, or None when everything was rolled back. */
    method DeleteGroups(ids: set<GroupId>, order: seq<GroupId>, org: OrgId, canCreate: bool)
      returns (count: Option<nat>, ghost u: GroupId)
      requires Valid() && Distinct(order) && Elements(order) == Listed(State(), ids, org)
      modifies this
      ensures Valid()
      ensures count.Some? <==> CanEmptyAll(old(State()), order, org, canCreate)
      ensures count.Some? ==>
                var gone := Listed(old(State()), ids, org);
                var victims := set h | h in old(home) && old(home)[h] in gone;
                && count.value == |gone|
                && home == Moved(old(home), victims, u) && SameOrgs(hosts, old(hosts))
                && (victims != {} ==> UngroupedIn(State(), u, org))
                && (forall g :: g in old(groups) ==>
                      if g in gone then g !in groups else g in groups && groups[g] == old(groups)[g])
      ensures count.None? ==> State() == old(State())
    {
      hide AssocsOf, Sane, Moved, SameOrgs, OneUngroupedEach, GoodExcept, Emptied, HasUngrouped, CanEmptyAll;
      var h0, g0, a0 := hosts, groups, assocs;
      ghost var s := State();
      u := 0;
      VictimsAre(s, ids, org);
      var victims := set a | a in assocs && a.org == org && a.group in ids :: a.host;
      ghost var gone := Listed(s, ids, org);
      assert victims == set h | h in s.home && s.home[h] in gone;
      ListedInOrg(s, ids, order, org);
      var ok := EmptyGroups(order, org, canCreate, s);
      if !ok {
        Rollback(h0, g0, a0, s.home);
        return None, 0;
      }
      DistinctSize(order);
      count := Some(|order|);
      ghost var d := State();
      EmptiedGroups(s, d, gone, org);
      if victims != {} {
        ghost var v :| v in victims;
        ghost var w := SomeoneMoved(s, d, gone, org, v);
        var found := UngroupedGroup(org, canCreate);
        u := found.value;
        var list := SetToSeq(victims);
        EmptiedEnd(s, d, gone, victims, u, org);
        var updated := UpdateHosts(list, found.value, org);
      } else {
        EmptiedEnd(s, d, gone, {}, u, org);
        ShowNobody(d, u, org);
      }
    }

    /** Creates a workspace, under a given id or a new one, and moves hosts into it. */
    method CreateGroup(name: string, ids: seq<HostId>, org: OrgId, given: Option<GroupId>) returns (r: Option<GroupId>)
      requires Valid()
      modifies this
      ensures Valid()
      ensures r.Some? <==>
                && org != "" && name != ""
                && (given.Some? ==> given.value !in old(groups))
                && Known(old(State()), Elements(ids), org) && Distinct(ids)
      ensures r.Some? ==>
                && r.value !in old(groups) && (given.Some? ==> r == given)
                && groups == old(groups)[r.value := GroupRow(org, name, false)]
                && home == Moved(old(home), Elements(ids), r.value) && SameOrgs(hosts, old(hosts))
      ensures r.None? ==> State() == old(State())
    {
      hide AssocsOf, Sane, Moved, SameOrgs, OneUngroupedEach, GoodExcept, Rows, NotYetIn;
      if org == "" || name == "" || (given.Some? && given.value in groups) {
        return None;
      }
      var h0, g0, a0 := hosts, groups, assocs;
      ghost var s := State();
      var g := if given.Some? then given.value else nextGroupId;
      CreatedGroupGood(s, g, GroupRow(org, name, false));
      groups := groups[g := GroupRow(org, name, false)];
      nextGroupId := if g >= nextGroupId then g + 1 else nextGroupId;
      GoodSane(State());
      NobodyYet(s, ids, g, org);
      ghost var created := State();
      var ok := AddHosts(g, ids, org);
      if ok {
        ok := UpdateHosts(ids, g, org);
        MoveShow(created, {}, Elements(ids), g, org);
        assert {} - Elements(ids) == {};
        r := Some(g);
      } else {
        Rollback(h0, g0, a0, s.home);
        r := None;
      }
    }

    /** Adds a host that matched no stored one: it starts in the ungrouped
        workspace. */
    method CreateHost(h: HostId, org: OrgId, canCreate: bool) returns (ok: bool, ghost u: GroupId)
      requires Valid()
      modifies this
      ensures Valid()
      ensures ok <==> h !in old(hosts) && (canCreate || HasUngrouped(old(State()), org))
      ensures ok ==>
                && UngroupedIn(State(), u, org) && GrewBy(old(groups), groups, u)
                && home == old(home)[h := u]
                && h in hosts && hosts[h].org == org && SameOrgs(hosts - {h}, old(hosts))
      ensures !ok ==> State() == old(State())
    {
      hide AssocsOf, Sane, OneUngroupedEach, GoodExcept;
      var h0, g0, a0 := hosts, groups, assocs;
      ghost var s := State();
      u := 0;
      var found := UngroupedGroup(org, canCreate);
      if found.None? || h in hosts {
        Rollback(h0, g0, a0, s.home);
        return false, 0;
      }
      u := found.value;
      SaneGroups(State());
      GrowGood(s, groups, u, {});
      CreatedHostGood(State(), h, u, org);
      hosts := hosts[h := HostRow(org, [GroupRef(found.value, groups[found.value].name)])];
      assocs := assocs + {Assoc(h, found.value, org)};
      home := home[h := u];
      GoodSane(State());
      assert (hosts - {h}) == s.hosts;
      ok := true;
    }

    /** Deletes a host and its associations. */
    method DeleteHost(h: HostId)
      requires Valid()
      modifies this
      ensures Valid() && State() == Killed(old(State()), {h})
    {
      hide AssocsOf, Sane, GoodExcept;
      KilledGood(State(), {h});
      Kill({h});
    }

    /** One operation. */
    method RunOne(op: Operation)
      requires Valid()
      modifies this
      ensures Valid() && Effect(op, old(State()), State())
    {
      hide AssocsOf, Sane, GoodExcept, Moved, SameOrgs, Rows, NotYetIn, HasUngrouped, CanEmptyAll, GrewBy, Rehomed, Members, AtHome;
      ghost var s := State();
      match op
      case CreateGroup(name, ids, org, given) =>
        var r := CreateGroup(name, ids, org, given);
        if r.Some? {
          KnownAreAtHome(s, Elements(ids), org);
          MovedIsRehomed(s, State(), Elements(ids), r.value);
        }
      case CreateHost(h, org, canCreate) => var ok, u := CreateHost(h, org, canCreate);
      case DeleteHost(h) => DeleteHost(h);
      case AddHosts(g, ids, org) =>
        var ok := AddHostsToGroup(g, ids, org);
        if Known(s, Elements(ids), org) {
          NewOnceIff(s, ids, g, org);
        }
        if ok {
          KnownAreAtHome(s, Elements(ids), org);
          MovedIsRehomed(s, State(), Elements(ids), g);
        }
      case RemoveHosts(g, ids, org, canCreate) =>
        var n, u := RemoveHostsFromGroup(g, ids, org, canCreate);
        if n.Some? {
          LeftRehomed(s, State(), Elements(ids), g, org, u);
        }
      case PatchGroup(g, org, patch, canCreate) =>
        if g in groups && groups[g].org == org {
          var ok, u := PatchGroup(g, org, patch, canCreate);
          if ok {
            PatchIs(s, State(), g, org, patch, canCreate, u);
          }
        }
      case DeleteGroups(gs, org, canCreate) =>
        var order := SetToSeq(set g | g in gs && g in groups && groups[g].org == org);
        assert Elements(order) == Listed(State(), gs, org);
        var n, u := DeleteGroups(gs, order, org, canCreate);
        DeletionIs(s, State(), gs, order, org, canCreate, u);
    }

    /** Any sequence of operations, each succeeding or rolled back, leaves the
        association table and the host rows in agreement. */
    method RunAll(ops: seq<Operation>) returns (ghost trace: seq<Db>)
      requires Valid()
      modifies this
      ensures Valid()
      ensures |assocs| == |hosts|
      // each operation has done what it does
      ensures |trace| == |ops| + 1 && trace[0] == old(State()) && trace[|ops|] == State()
      ensures forall i :: 0 <= i < |ops| ==> Effect(ops[i], trace[i], trace[i + 1])
      // each host has one association, and its row shows that group
      ensures forall a :: a in assocs ==> a.host in hosts
      ensures forall h :: h in hosts ==>
                exists g :: && g in groups && groups[g].org == hosts[h].org && hosts[h].groups == [GroupRef(g, groups[g].name)]
                            && forall a :: a in assocs && a.host == h <==> a == Assoc(h, g, hosts[h].org)
    {
      trace := [State()];
      for i := 0 to |ops|
        invariant Valid()
        invariant |trace| == i + 1 && trace[0] == old(State()) && trace[i] == State()
        invariant forall j :: 0 <= j < i ==> Effect(ops[j], trace[j], trace[j + 1])
      {
        hide AssocsOf, Sane, GoodExcept, Effect;
        RunOne(ops[i]);
        trace := trace + [State()];
      }
      AssociationsConserved(hosts, home);
      AgreementShows(State());
      hide AssocsOf, Sane, GoodExcept, Effect;
    }
  }

  /** What agreement means for the rows of the tables. */
  lemma AgreementShows(s: Db)
    requires Good(s)
    ensures forall a :: a in AssocsOf(s.hosts, s.home) ==> a.host in s.hosts
    ensures forall h :: h in s.hosts ==>
              exists g :: && g in s.groups && s.groups[g].org == s.hosts[h].org && s.hosts[h].groups == [GroupRef(g, s.groups[g].name)]
                          && forall a :: a in AssocsOf(s.hosts, s.home) && a.host == h <==> a == Assoc(h, g, s.hosts[h].org)
  {
    forall a ensures a in AssocsOf(s.hosts, s.home) <==> IsAssoc(a, s.hosts, s.home) {
      AssocsIff(s.hosts, s.home, a);
    }
    hide AssocsOf;
    forall h | h in s.hosts
      ensures exists g :: && g in s.groups && s.groups[g].org == s.hosts[h].org && s.hosts[h].groups == [GroupRef(g, s.groups[g].name)]
                          && forall a :: a in AssocsOf(s.hosts, s.home) && a.host == h <==> a == Assoc(h, g, s.hosts[h].org)
    {
      assert s.home[h] in s.groups;
    }
  }

  lemma LeftRehomed(s: Db, t: Db, ids: set<HostId>, g: GroupId, org: OrgId, u: GroupId)
    requires SameOrgs(t.hosts, s.hosts) && t.home == Moved(s.home, AtHome(s, ids, g, org), u)
    ensures Rehomed(s, t, AtHome(s, ids, g, org), u)
  {
    MovedIsRehomed(s, t, AtHome(s, ids, g, org), u);
  }

  lemma HomesReplaced(before: Home, after: Home, wanted: seq<HostId>, g: GroupId, u: GroupId)
    requires Elements(wanted) <= before.Keys && after == Moved(Moved(before, Members(before, g), u), Elements(wanted), g)
    ensures after.Keys == before.Keys
    ensures forall h :: h in before && h in after ==> after[h] == if h in wanted then g else if before[h] == g then u else before[h]
  {}

  lemma PatchIs(s: Db, t: Db, g: GroupId, org: OrgId, patch: Patch, canCreate: bool, u: GroupId)
    requires Good(s) && InOrg(s, g, org) && !s.groups[g].ungrouped && (patch.name.Some? || patch.hostIds.Some? || patch.other)
    requires patch.hostIds.Some? ==> Known(s, Elements(patch.hostIds.value), org) && (canCreate || HasUngrouped(s, org))
    requires SameOrgs(t.hosts, s.hosts)
    requires GrewBy(if patch.name.Some? then Renamed(s, g, patch.name.value).groups else s.groups, t.groups, u)
    requires patch.hostIds.None? ==> t.home == s.home
    requires patch.hostIds.Some? ==>
      && UngroupedIn(t, u, org)
      && t.home == Moved(Moved(s.home, Members(s.home, g), u), Elements(patch.hostIds.value), g)
    ensures Patched(s, t, g, org, patch, canCreate)
  {
    if patch.hostIds.Some? {
      KnownAreAtHome(s, Elements(patch.hostIds.value), org);
      HomesReplaced(s.home, t.home, patch.hostIds.value, g, u);
    }
    hide GrewBy, HasUngrouped, SameOrgs, Good, Known, Moved, Members, Elements;
    assert PatchedWith(s, t, g, org, patch, u);
  }

  lemma DeletionIs(s: Db, t: Db, gs: set<GroupId>, order: seq<GroupId>, org: OrgId, canCreate: bool, u: GroupId)
    requires Distinct(order) && Elements(order) == Listed(s, gs, org)
    requires if CanEmptyAll(s, order, org, canCreate) then
               var gone := Listed(s, gs, org);
               var victims := set h | h in s.home && s.home[h] in gone;
               && t.home == Moved(s.home, victims, u) && SameOrgs(t.hosts, s.hosts)
               && (victims != {} ==> UngroupedIn(t, u, org))
               && (forall g :: g in s.groups ==> if g in gone then g !in t.groups else g in t.groups && t.groups[g] == s.groups[g])
             else t == s
    ensures Deleted(s, t, gs, org, canCreate)
  {
    hide CanEmptyAll, SameOrgs;
    assert forall g :: g in order <==> g in Elements(order);
    if CanEmptyAll(s, order, org, canCreate) {
      var victims := set h | h in s.home && s.home[h] in Listed(s, gs, org);
      assert victims == set h | h in s.home && s.home[h] in order;
      MovedIsRehomed(s, t, victims, u);
      hide Moved, Rehomed;
      assert DeletedInto(s, t, order, org, u);
    }
  }
}
