/** Workspace membership as values: hosts, groups, where each host is at home,
    and what it means for the association table and the host rows to agree. */
module WorkspaceState {
  import opened Common

  type HostId = string
  type OrgId = string
  type GroupId = nat

  datatype GroupRow = GroupRow(org: OrgId, name: string, ungrouped: bool)

  /** A serialized group as stored on a host; only id and name are kept in step. */
  datatype GroupRef = GroupRef(id: GroupId, name: string)

  datatype HostRow = HostRow(org: OrgId, groups: seq<GroupRef>)

  /** A row of hosts_groups; the whole triple is its primary key. */
  datatype Assoc = Assoc(host: HostId, group: GroupId, org: OrgId)

  type Hosts = map<HostId, HostRow>
  type Groups = map<GroupId, GroupRow>
  type Home = map<HostId, GroupId>

  datatype Db = Db(hosts: Hosts, groups: Groups, home: Home)

  /* ---------- the association table ---------- */

  /** The associations that put each host of `home` into its group. */
  function AssocsOf(hosts: Hosts, home: Home): set<Assoc> {
    set h | h in home && h in hosts :: Assoc(h, home[h], hosts[h].org)
  }

  predicate IsAssoc(a: Assoc, hosts: Hosts, home: Home) {
    a.host in home && a.host in hosts && a.group == home[a.host] && a.org == hosts[a.host].org
  }

  lemma AssocsIff(hosts: Hosts, home: Home, a: Assoc)
    ensures a in AssocsOf(hosts, home) <==> IsAssoc(a, hosts, home)
  {}

  /** The hosts associated with a group of an organisation. */
  function Rows(assocs: set<Assoc>, g: GroupId, org: OrgId): set<HostId> {
    set a | a in assocs && a.org == org && a.group == g :: a.host
  }

  /** The hosts of a list that have no row in the group yet, in order. */
  function NotYetIn(ids: seq<HostId>, already: set<HostId>): seq<HostId> {
    if ids == [] then []
    else NotYetIn(ids[..|ids| - 1], already)
           + if ids[|ids| - 1] in already then [] else [ids[|ids| - 1]]
  }

  lemma {:induction false} NotYetInElements(ids: seq<HostId>, already: set<HostId>)
    ensures forall h :: h in NotYetIn(ids, already) <==> h in ids && h !in already
    ensures Distinct(ids) ==> Distinct(NotYetIn(ids, already))
  {
    if ids != [] {
      var front, last := ids[..|ids| - 1], ids[|ids| - 1];
      NotYetInElements(front, already);
      assert ids == front + [last];
      if Distinct(ids) {
        assert last !in front;
        assert Distinct(front);
      }
    }
  }

  /** The list is distinct exactly if only hosts that have their row are named twice. */
  lemma {:induction false} NotYetInDistinctIff(ids: seq<HostId>, already: set<HostId>)
    ensures Distinct(NotYetIn(ids, already)) <==> forall i, j :: 0 <= i < j < |ids| && ids[i] == ids[j] ==> ids[i] in already
  {
    if ids != [] {
      var front, last := ids[..|ids| - 1], ids[|ids| - 1];
      var some, all := NotYetIn(front, already), NotYetIn(ids, already);
      NotYetInElements(front, already);
      NotYetInDistinctIff(front, already);
      assert ids == front + [last];
      if last in already {
        assert all == some;
      } else {
        assert all == some + [last];
        DistinctSnocIff(some, last);
        if last in front {
          var i :| 0 <= i < |front| && front[i] == last;
          assert ids[i] == ids[|front|];
        }
      }
    }
  }

  lemma DistinctSnocIff(s: seq<HostId>, x: HostId)
    ensures Distinct(s + [x]) <==> Distinct(s) && x !in s
  {
    var t := s + [x];
    assert t[|s|] == x && forall i :: 0 <= i < |s| ==> t[i] == s[i];
  }

  /** The rows left when the other associations of some hosts are deleted. */
  function OthersDropped(assocs: set<Assoc>, ids: seq<HostId>, g: GroupId, org: OrgId): set<Assoc> {
    set a | a in assocs && !(a.org == org && a.host in ids && a.group != g)
  }

  function RowsFor(ids: seq<HostId>, g: GroupId, org: OrgId): set<Assoc> {
    set h | h in ids :: Assoc(h, g, org)
  }

  /** The rows to insert are new, and when there are none the hosts are members. */
  lemma NewRows(hosts: Hosts, home: Home, ids: seq<HostId>, g: GroupId, org: OrgId)
    ensures var assocs := AssocsOf(hosts, home);
            var rows := NotYetIn(ids, Rows(assocs, g, org));
            && (forall h :: h in rows ==> h !in Rows(OthersDropped(assocs, ids, g, org), g, org))
            && (rows == [] ==> forall h :: h in ids ==> h in home && home[h] == g)
  {
    var assocs := AssocsOf(hosts, home);
    var already := Rows(assocs, g, org);
    NotYetInElements(ids, already);
    if NotYetIn(ids, already) == [] {
      forall h | h in ids ensures h in home && home[h] == g {
        assert h in already;
      }
    }
  }

  function Moved(home: Home, ids: set<HostId>, g: GroupId): Home {
    home + map h | h in ids :: g
  }

  /** Deleting the other associations of some hosts and inserting the missing
      ones moves exactly those hosts. */
  lemma MoveAssocs(hosts: Hosts, home: Home, ids: seq<HostId>, g: GroupId, org: OrgId)
    requires forall h :: h in ids ==> h in hosts && hosts[h].org == org
    ensures var assocs := AssocsOf(hosts, home);
            OthersDropped(assocs, ids, g, org) + RowsFor(NotYetIn(ids, Rows(assocs, g, org)), g, org)
            == AssocsOf(hosts, Moved(home, Elements(ids), g))
  {
    var assocs := AssocsOf(hosts, home);
    var already := Rows(assocs, g, org);
    var l := OthersDropped(assocs, ids, g, org) + RowsFor(NotYetIn(ids, already), g, org);
    NotYetInElements(ids, already);
    forall a ensures a in l <==> a in AssocsOf(hosts, Moved(home, Elements(ids), g)) {
      AssocsIff(hosts, home, a);
      AssocsIff(hosts, Moved(home, Elements(ids), g), a);
      assert a in RowsFor(NotYetIn(ids, already), g, org)
        <==> a.host in NotYetIn(ids, already) && a == Assoc(a.host, g, org);
      if a.host in already {
        var b :| b in assocs && b.org == org && b.group == g && b.host == a.host;
        AssocsIff(hosts, home, b);
      }
      if a in assocs && a == Assoc(a.host, g, org) {
        assert a.host in already;
      }
    }
  }

  /** The named hosts of an organisation that are at home in a group. */
  function AtHome(db: Db, ids: set<HostId>, g: GroupId, org: OrgId): set<HostId> {
    set h | h in ids && h in db.home && h in db.hosts && db.home[h] == g && db.hosts[h].org == org
  }

  lemma AtHomeKnown(db: Db, ids: set<HostId>, g: GroupId, org: OrgId)
    ensures Known(db, AtHome(db, ids, g, org), org)
  {}

  lemma AtHomeSubset(db: Db, ids: set<HostId>, g: GroupId, org: OrgId)
    ensures AtHome(db, ids, g, org) <= ids
  {}

  /** Deleting the rows of hosts in a group takes exactly those hosts out. */
  lemma DropAssocs(db: Db, ids: set<HostId>, g: GroupId, org: OrgId)
    ensures var gone := AtHome(db, ids, g, org);
            AssocsOf(db.hosts, db.home) - (set h | h in gone :: Assoc(h, g, org))
              == AssocsOf(db.hosts, db.home - gone)
  {
    var gone := AtHome(db, ids, g, org);
    var l := AssocsOf(db.hosts, db.home) - (set h | h in gone :: Assoc(h, g, org));
    forall a ensures a in l <==> a in AssocsOf(db.hosts, db.home - gone) {
      AssocsIff(db.hosts, db.home, a);
      AssocsIff(db.hosts, db.home - gone, a);
    }
  }

  predicate SameOrgs(a: Hosts, b: Hosts) {
    a.Keys == b.Keys && forall h :: h in a ==> a[h].org == b[h].org
  }

  /** Associations depend on the organisations of the hosts only. */
  lemma AssocsSameOrgs(a: Hosts, b: Hosts, home: Home)
    requires SameOrgs(a, b)
    ensures AssocsOf(a, home) == AssocsOf(b, home)
  {
    forall x ensures x in AssocsOf(a, home) <==> x in AssocsOf(b, home) {
      AssocsIff(a, home, x);
      AssocsIff(b, home, x);
    }
  }

  /** Deleting host rows takes their associations along. */
  lemma CascadeAssocs(hosts: Hosts, home: Home, dead: set<HostId>)
    ensures (set a | a in AssocsOf(hosts, home) && a.host !in dead) == AssocsOf(hosts - dead, home - dead)
  {
    var l := set a | a in AssocsOf(hosts, home) && a.host !in dead;
    forall a ensures a in l <==> a in AssocsOf(hosts - dead, home - dead) {
      AssocsIff(hosts, home, a);
      AssocsIff(hosts - dead, home - dead, a);
    }
  }

  /** In step, there are as many associations as hosts. */
  lemma {:induction false} AssociationsConserved(hosts: Hosts, home: Home)
    requires home.Keys == hosts.Keys
    ensures |AssocsOf(hosts, home)| == |hosts|
    decreases |hosts|
  {
    if hosts.Keys == {} {
      assert AssocsOf(hosts, home) == {};
    } else {
      var h :| h in hosts;
      AssociationsConserved(hosts - {h}, home - {h});
      CascadeAssocs(hosts, home, {h});
      var a := Assoc(h, home[h], hosts[h].org);
      assert AssocsOf(hosts, home) == AssocsOf(hosts - {h}, home - {h}) + {a};
      assert |hosts - {h}| == |hosts| - 1 by {
        assert (hosts - {h}).Keys == hosts.Keys - {h};
      }
    }
  }

  /* ---------- agreement ---------- */

  predicate OneUngroupedEach(groups: Groups) {
    forall g, k | g in groups && k in groups && groups[g].ungrouped && groups[k].ungrouped ::
      groups[g].org == groups[k].org ==> g == k
  }

  /** Foreign keys, and at most one ungrouped workspace per organisation. */
  predicate Sane(db: Db) {
    && db.home.Keys <= db.hosts.Keys
    && (forall h :: h in db.home ==> db.home[h] in db.groups)
    && OneUngroupedEach(db.groups)
  }

  /** Each host is at home in exactly one group, of its own organisation, and its
      row shows exactly that group under its current name, the rows of the hosts
      in `stale` excepted. */
  predicate GoodExcept(db: Db, stale: set<HostId>) {
    && Sane(db)
    && db.home.Keys == db.hosts.Keys
    && forall h :: h in db.hosts ==>
         && db.groups[db.home[h]].org == db.hosts[h].org
         && (h in stale || db.hosts[h].groups == [GroupRef(db.home[h], db.groups[db.home[h]].name)])
  }

  predicate Good(db: Db) {
    GoodExcept(db, {})
  }

  predicate Known(db: Db, ids: set<HostId>, org: OrgId) {
    forall h :: h in ids ==> h in db.hosts && db.hosts[h].org == org
  }

  predicate InOrg(db: Db, g: GroupId, org: OrgId) {
    g in db.groups && db.groups[g].org == org
  }

  predicate HasUngrouped(db: Db, org: OrgId) {
    exists g :: g in db.groups && db.groups[g].org == org && db.groups[g].ungrouped
  }

  predicate UngroupedIn(db: Db, u: GroupId, org: OrgId) {
    InOrg(db, u, org) && db.groups[u].ungrouped
  }

  /** Nothing changed, or the one group `u` was added. */
  predicate GrewBy(a: Groups, b: Groups, u: GroupId) {
    a == b || (u !in a && u in b && b == a[u := b[u]] && b[u] == GroupRow(b[u].org, "Ungrouped Hosts", true))
  }

  function Members(home: Home, g: GroupId): set<HostId> {
    set h | h in home && home[h] == g
  }

  /* ---------- the primitive changes ---------- */

  function Move(db: Db, ids: set<HostId>, g: GroupId): Db {
    db.(home := Moved(db.home, ids, g))
  }

  function Drop(db: Db, ids: set<HostId>): Db {
    db.(home := db.home - ids)
  }

  /** The named hosts of the organisation show the given group. */
  function Show(db: Db, ids: set<HostId>, g: GroupId, org: OrgId): Db
    requires ids == {} || g in db.groups
  {
    db.(hosts := map h | h in db.hosts ::
          if h in ids && db.hosts[h].org == org then db.hosts[h].(groups := [GroupRef(g, db.groups[g].name)])
          else db.hosts[h])
  }

  lemma HomeIsAGroup(db: Db, h: HostId)
    requires Sane(db) && h in db.home
    ensures db.home[h] in db.groups
  {}

  lemma SaneGroups(db: Db)
    requires Sane(db)
    ensures OneUngroupedEach(db.groups)
  {}

  /** In an agreeing state nobody is at home in a foreign group. */
  lemma NobodyAtHome(db: Db, ids: set<HostId>, g: GroupId, org: OrgId)
    requires Good(db)
    ensures !InOrg(db, g, org) ==> AtHome(db, ids, g, org) == {}
    ensures Known(db, AtHome(db, ids, g, org), org)
  {}

  /** The rows a query for hosts of a group returns. */
  lemma FoundRows(db: Db, ids: set<HostId>, g: GroupId, org: OrgId, found: set<Assoc>)
    requires found == set a | a in AssocsOf(db.hosts, db.home) && a.org == org && a.group == g && a.host in ids
    ensures found == set h | h in AtHome(db, ids, g, org) :: Assoc(h, g, org)
  {
    forall a ensures a in found <==> a in (set h | h in AtHome(db, ids, g, org) :: Assoc(h, g, org)) {
      AssocsIff(db.hosts, db.home, a);
    }
  }

  lemma MoveSane(db: Db, ids: set<HostId>, g: GroupId, org: OrgId)
    requires Sane(db) && Known(db, ids, org) && (ids == {} || g in db.groups)
    ensures Sane(Move(db, ids, g))
  {}

  lemma ShowSane(db: Db, ids: set<HostId>, g: GroupId, org: OrgId)
    requires Sane(db) && (ids == {} || g in db.groups)
    ensures Sane(Show(db, ids, g, org)) && SameOrgs(Show(db, ids, g, org).hosts, db.hosts)
    ensures AssocsOf(Show(db, ids, g, org).hosts, db.home) == AssocsOf(db.hosts, db.home)
  {
    AssocsSameOrgs(Show(db, ids, g, org).hosts, db.hosts, db.home);
  }

  /** Moving hosts and showing the new group on them freshens their rows. */
  lemma MoveShow(db: Db, stale: set<HostId>, ids: set<HostId>, g: GroupId, org: OrgId)
    requires GoodExcept(db, stale) && Known(db, ids, org) && (ids == {} || InOrg(db, g, org))
    ensures GoodExcept(Show(Move(db, ids, g), ids, g, org), stale - ids)
    ensures SameOrgs(Show(Move(db, ids, g), ids, g, org).hosts, db.hosts)
  {
    hide OneUngroupedEach, AssocsOf;
    MoveSane(db, ids, g, org);
    ShowSane(Move(db, ids, g), ids, g, org);
    var d := Show(Move(db, ids, g), ids, g, org);
    assert d.home.Keys == db.home.Keys && d.groups == db.groups;
    forall h | h in d.hosts
      ensures d.groups[d.home[h]].org == d.hosts[h].org
      ensures h in stale - ids || d.hosts[h].groups == [GroupRef(d.home[h], d.groups[d.home[h]].name)]
    {
      if h in ids {
        assert d.home[h] == g;
      } else {
        assert d.home[h] == db.home[h] && d.hosts[h] == db.hosts[h];
      }
    }
  }

  lemma GrowGood(db: Db, groups: Groups, u: GroupId, stale: set<HostId>)
    requires GoodExcept(db, stale) && GrewBy(db.groups, groups, u) && OneUngroupedEach(groups)
    ensures GoodExcept(db.(groups := groups), stale)
  {}

  /** Taking hosts out and putting them elsewhere is moving them. */
  lemma DropMove(db: Db, ids: set<HostId>, g: GroupId)
    ensures Move(Drop(db, ids), ids, g) == Move(db, ids, g)
  {
    assert Moved(db.home - ids, ids, g) == Moved(db.home, ids, g);
  }

  /** The association rows of a group are its members. */
  lemma RowsAreMembers(db: Db, g: GroupId, org: OrgId)
    requires Good(db) && InOrg(db, g, org)
    ensures Rows(AssocsOf(db.hosts, db.home), g, org) == Members(db.home, g)
    ensures Known(db, Members(db.home, g), org)
  {
    forall h ensures h in Rows(AssocsOf(db.hosts, db.home), g, org) <==> h in Members(db.home, g) {
      AssocsIff(db.hosts, db.home, Assoc(h, g, org));
    }
  }

  /* ---------- whole operations ---------- */

  /** Leaving a group for the ungrouped workspace. */
  lemma ResettledGood(db: Db, groups: Groups, gone: set<HostId>, u: GroupId, org: OrgId)
    requires Good(db) && Known(db, gone, org)
    requires GrewBy(db.groups, groups, u) && OneUngroupedEach(groups) && UngroupedIn(db.(groups := groups), u, org)
    ensures var d := Show(Move(Drop(db, gone).(groups := groups), gone, u), gone, u, org);
            Good(d) && d.home == Moved(db.home, gone, u) && d.groups == groups && SameOrgs(d.hosts, db.hosts)
  {
    GrowGood(db, groups, u, {});
    DropMove(db.(groups := groups), gone, u);
    MoveShow(db.(groups := groups), {}, gone, u, org);
    assert {} - gone == {};
  }

  lemma LeaveThenJoin(home: Home, wanted: set<HostId>, g: GroupId, u: GroupId)
    ensures var members := Members(home, g);
            Moved(Moved(home, members - wanted, u), wanted, g) == Moved(Moved(home, members, u), wanted, g)
  {}

  lemma MembersReplaced(home: Home, wanted: set<HostId>, g: GroupId, u: GroupId)
    requires u != g
    ensures Members(Moved(Moved(home, Members(home, g), u), wanted, g), g) == wanted
  {}

  lemma ReplacedHome(home: Home, wanted: set<HostId>, g: GroupId, u: GroupId)
    requires u != g
    ensures var members := Members(home, g);
            var r := Moved(Moved(home, wanted - members, g) - (members - wanted), members - wanted, u);
            && r == Moved(Moved(home, members - wanted, u), wanted, g)
            && r == Moved(Moved(home, members, u), wanted, g)
            && Members(r, g) == wanted
  {
    var members := Members(home, g);
    var r := Moved(Moved(home, wanted - members, g) - (members - wanted), members - wanted, u);
    assert r == Moved(Moved(home, members - wanted, u), wanted, g);
    LeaveThenJoin(home, wanted, g, u);
    MembersReplaced(home, wanted, g, u);
  }

  /** The state in which a group's members have been replaced by `wanted`: newcomers
      in, the others out and in the ungrouped workspace, then both sets shown. */
  function Replaced(db: Db, groups: Groups, wanted: set<HostId>, g: GroupId, u: GroupId, org: OrgId): Db
    requires g in groups && u in groups
  {
    var members := Members(db.home, g);
    var d := Move(Drop(Move(db, wanted - members, g), members - wanted).(groups := groups), members - wanted, u);
    Show(Show(d, members - wanted, u, org), wanted, g, org)
  }

  /** Replacing the members of a group, even when the old members' rows are out of
      date, ends in step. */
  lemma ReplacedGood(db: Db, groups: Groups, wanted: set<HostId>, g: GroupId, u: GroupId, org: OrgId)
    requires GoodExcept(db, Members(db.home, g)) && Known(db, wanted, org) && Known(db, Members(db.home, g), org)
    requires InOrg(db, g, org) && !db.groups[g].ungrouped
    requires GrewBy(db.groups, groups, u) && OneUngroupedEach(groups) && UngroupedIn(db.(groups := groups), u, org)
    ensures g in groups && u in groups
    ensures var d := Replaced(db, groups, wanted, g, u, org);
            && Good(d) && d.groups == groups && SameOrgs(d.hosts, db.hosts)
            && d.home == Moved(Moved(db.home, Members(db.home, g), u), wanted, g)
            && Members(d.home, g) == wanted
  {
    hide OneUngroupedEach, AssocsOf, GoodExcept, Moved, Members;
    var members := Members(db.home, g);
    var gone := members - wanted;
    var b := db.(groups := groups);
    GrowGood(db, groups, u, members);
    ReplacedHome(db.home, wanted, g, u);
    MoveShow(b, members, gone, u, org);
    var c := Show(Move(b, gone, u), gone, u, org);
    MoveShow(c, members - gone, wanted, g, org);
    assert members - gone - wanted == {};
  }

  /** Of the members to be replaced, those that leave. */
  lemma WhoLeaves(db: Db, wanted: set<HostId>, g: GroupId, org: OrgId)
    requires GoodExcept(db, Members(db.home, g)) && Known(db, Members(db.home, g), org) && Known(db, wanted, org)
    ensures var members := Members(db.home, g);
            AtHome(Move(db, wanted - members, g), members - wanted, g, org) == members - wanted
  {}

  lemma MembersStay(home: Home, g: GroupId)
    ensures Moved(home, Members(home, g), g) == home
  {}

  /** The named hosts are now at home in `g`, and nobody else has moved. */
  predicate Rehomed(s: Db, t: Db, ids: set<HostId>, g: GroupId) {
    && SameOrgs(t.hosts, s.hosts) && t.home.Keys == s.home.Keys
    && forall h :: h in s.home && h in t.home ==> t.home[h] == if h in ids then g else s.home[h]
  }

  lemma MovedIsRehomed(s: Db, t: Db, ids: set<HostId>, g: GroupId)
    requires ids <= s.home.Keys && SameOrgs(t.hosts, s.hosts) && t.home == Moved(s.home, ids, g)
    ensures Rehomed(s, t, ids, g)
  {}

  lemma KnownAreAtHome(s: Db, ids: set<HostId>, org: OrgId)
    requires Good(s) && Known(s, ids, org)
    ensures ids <= s.home.Keys
  {}

  /** Hosts that are named twice are members already. */
  predicate NewOnce(s: Db, ids: seq<HostId>, g: GroupId) {
    forall i, j :: 0 <= i < j < |ids| && ids[i] == ids[j] ==> ids[i] in s.home && s.home[ids[i]] == g
  }

  lemma NewOnceIff(s: Db, ids: seq<HostId>, g: GroupId, org: OrgId)
    requires Good(s) && Known(s, Elements(ids), org)
    ensures Distinct(NotYetIn(ids, Rows(AssocsOf(s.hosts, s.home), g, org))) <==> NewOnce(s, ids, g)
  {
    var assocs := AssocsOf(s.hosts, s.home);
    NotYetInDistinctIff(ids, Rows(assocs, g, org));
    hide NotYetIn, Good;
    forall h | h in ids ensures h in Rows(assocs, g, org) <==> h in s.home && s.home[h] == g {
      assert h in Elements(ids);
      var a := Assoc(h, g, org);
      AssocsIff(s.hosts, s.home, a);
      if h in Rows(assocs, g, org) {
        var b :| b in assocs && b.org == org && b.group == g && b.host == h;
        assert b == a;
      }
    }
  }

  function Renamed(db: Db, g: GroupId, name: string): Db
    requires g in db.groups
  {
    db.(groups := db.groups[g := db.groups[g].(name := name)])
  }

  /** A rename leaves only the rows of the members out of date. */
  lemma RenamedGood(db: Db, g: GroupId, name: string)
    requires Good(db) && g in db.groups
    ensures GoodExcept(Renamed(db, g, name), Members(db.home, g)) && GoodExcept(db, Members(db.home, g))
    ensures HasUngrouped(Renamed(db, g, name), db.groups[g].org) <==> HasUngrouped(db, db.groups[g].org)
  {
    var d := Renamed(db, g, name);
    assert forall k :: k in db.groups ==>
      d.groups[k].org == db.groups[k].org && d.groups[k].ungrouped == db.groups[k].ungrouped;
  }

  /** Other sessions may delete hosts at any time. */
  function Killed(db: Db, dead: set<HostId>): Db {
    Db(db.hosts - dead, db.groups, db.home - dead)
  }

  lemma KilledTwice(db: Db, a: set<HostId>, b: set<HostId>)
    ensures Killed(Killed(db, a), b) == Killed(db, a + b)
  {
    assert db.hosts - a - b == db.hosts - (a + b);
    assert db.home - a - b == db.home - (a + b);
  }

  lemma KilledNobody(db: Db)
    ensures Killed(db, {}) == db
  {
    assert db.hosts - {} == db.hosts && db.home - {} == db.home;
  }

  lemma MoveNobody(db: Db, g: GroupId)
    ensures Move(db, {}, g) == db
  {}

  lemma HomesAreHosts(db: Db)
    requires Sane(db)
    ensures db.home.Keys <= db.hosts.Keys
  {}

  /** The members of a group are found by its association rows, in any state. */
  lemma RowsAreAtHome(db: Db, g: GroupId, org: OrgId)
    ensures Rows(AssocsOf(db.hosts, db.home), g, org) == AtHome(db, db.home.Keys, g, org)
  {
    forall h ensures h in Rows(AssocsOf(db.hosts, db.home), g, org) <==> h in AtHome(db, db.home.Keys, g, org) {
      if h in db.home && h in db.hosts {
        AssocsIff(db.hosts, db.home, Assoc(h, db.home[h], db.hosts[h].org));
      }
      if h in Rows(AssocsOf(db.hosts, db.home), g, org) {
        AssocsIff(db.hosts, db.home, Assoc(h, g, org));
      }
    }
  }

  lemma WhoSurvives(db: Db, start: Db, members: set<HostId>, dead: set<HostId>, org: OrgId)
    requires start.hosts == db.hosts && Known(db, members, org)
    ensures (set h | h in members && h in Killed(start, dead).hosts && Killed(start, dead).hosts[h].org == org)
         == members - dead
    ensures Known(Killed(start, dead), members - dead, org)
  {}

  /** When not all are known any more, one of them has died. */
  lemma SomeoneDied(db: Db, dead: set<HostId>, ids: seq<HostId>, hosts: Hosts, org: OrgId)
    requires Known(db, Elements(ids), org) && hosts == db.hosts - dead
    ensures (exists h :: h in ids && !(h in hosts && hosts[h].org == org)) ==> exists h :: h in ids && h in dead
  {
    if h :| h in ids && !(h in hosts && hosts[h].org == org) {
      assert h in Elements(ids);
      assert h in dead;
    }
  }

  /** Undoing one's own changes, but not the deletions of others. */
  lemma Undone(db: Db, dead: set<HostId>, hosts: Hosts, saved: set<Assoc>)
    requires saved == AssocsOf(db.hosts, db.home) && hosts == db.hosts - dead && db.home.Keys <= db.hosts.Keys
    ensures (set a | a in saved && a.host in hosts) == AssocsOf(hosts, db.home - dead)
    ensures (map h | h in db.home && h in hosts :: db.home[h]) == db.home - dead
  {
    forall a ensures a in saved && a.host in hosts <==> a in AssocsOf(hosts, db.home - dead) {
      AssocsIff(db.hosts, db.home, a);
      AssocsIff(hosts, db.home - dead, a);
    }
  }

  /** One attempt that went through: hosts taken out, others deleted meanwhile,
      the rest put into `u`. */
  lemma MovedDespiteDeaths(db: Db, a: set<HostId>, b: set<HostId>, ids: set<HostId>, gone: set<HostId>, u: GroupId, org: OrgId)
    requires gone <= ids && Known(Killed(Drop(Killed(db, a), gone), b), ids, org)
    ensures Move(Killed(Drop(Killed(db, a), gone), b), ids, u) == Move(Killed(db, a + b), ids, u)
    ensures ids !! a + b
  {
    assert db.hosts - a - b == db.hosts - (a + b);
    assert Moved(db.home - a - gone - b, ids, u) == Moved(db.home - (a + b), ids, u);
  }

  lemma KilledSane(db: Db, dead: set<HostId>)
    requires Sane(db)
    ensures Sane(Killed(db, dead))
  {}

  lemma KilledGood(db: Db, dead: set<HostId>)
    requires Good(db)
    ensures Good(Killed(db, dead))
  {}

  lemma StrictlyMore(a: set<HostId>, b: set<HostId>, h: HostId)
    requires a <= b && h in b && h !in a
    ensures |b| >= |a| + 1
  {
    var c := b - a;
    assert b == a + c && h in c;
    assert |c| >= 1;
  }

  /* ---------- emptying groups one after another ---------- */

  /** `d` is `s` after the groups in `done` have been emptied and deleted. */
  predicate Emptied(s: Db, d: Db, done: set<GroupId>, org: OrgId) {
    && Sane(d) && d.hosts == s.hosts && d.home.Keys == s.home.Keys
    && (forall h :: h in d.home ==>
          if s.home[h] in done then UngroupedIn(d, d.home[h], org) else d.home[h] == s.home[h])
    && (forall k :: k in s.groups ==> if k in done then k !in d.groups else k in d.groups && d.groups[k] == s.groups[k])
    && (forall k :: k in d.groups && k !in s.groups ==> d.groups[k].org == org && d.groups[k].ungrouped)
  }

  lemma ShrunkSane(db: Db, g: GroupId)
    requires Sane(db) && forall h :: h in db.home ==> db.home[h] != g
    ensures Sane(db.(groups := db.groups - {g}))
  {}

  /** `e` is `d` with the members of `g` moved to the ungrouped workspace `u`,
      nobody being left in `g`. */
  predicate EmptiedOut(s: Db, d: Db, e: Db, g: GroupId, u: GroupId, org: OrgId) {
    && UngroupedIn(e, u, org) && GrewBy(d.groups, e.groups, u) && (d.groups == e.groups || u !in s.groups)
    && Sane(e) && e == Move(d.(groups := e.groups), Members(d.home, g), u)
    && forall h :: h in e.home ==> e.home[h] != g
  }

  lemma EmptiedOneHost(s: Db, d: Db, e: Db, done: set<GroupId>, g: GroupId, u: GroupId, org: OrgId, h: HostId)
    requires Emptied(s, d, done, org) && EmptiedOut(s, d, e, g, u, org) && h in e.home && h in d.home
    ensures if s.home[h] in done + {g} then UngroupedIn(e.(groups := e.groups - {g}), e.home[h], org)
            else e.home[h] == s.home[h]
  {
    hide OneUngroupedEach;
    assert h in Members(d.home, g) <==> d.home[h] == g;
  }

  /** One more group emptied into the ungrouped workspace `u` and deleted. */
  lemma EmptiedStep(s: Db, d: Db, e: Db, done: set<GroupId>, g: GroupId, u: GroupId, org: OrgId)
    requires Good(s) && Emptied(s, d, done, org) && InOrg(s, g, org) && g !in done
    requires EmptiedOut(s, d, e, g, u, org)
    ensures Emptied(s, e.(groups := e.groups - {g}), done + {g}, org)
  {
    hide OneUngroupedEach;
    var f := e.(groups := e.groups - {g});
    ShrunkSane(e, g);
    SameHosts(d, e, g, u);
    hide Sane, GoodExcept, Moved, Members;
    forall h | h in f.home
      ensures if s.home[h] in done + {g} then UngroupedIn(f, f.home[h], org) else f.home[h] == s.home[h]
    {
      EmptiedOneHost(s, d, e, done, g, u, org, h);
    }
    hide UngroupedIn;
  }

  lemma SameHosts(d: Db, e: Db, g: GroupId, u: GroupId)
    requires e == Move(d.(groups := e.groups), Members(d.home, g), u)
    ensures d.home.Keys == e.home.Keys && d.hosts == e.hosts
  {}

  lemma AllInOne(s: Db, d: Db, done: set<GroupId>, victims: set<HostId>, u: GroupId, org: OrgId)
    requires Emptied(s, d, done, org) && (victims == {} || UngroupedIn(d, u, org))
    requires victims == set h | h in s.home && s.home[h] in done
    ensures d.home == Moved(s.home, victims, u)
  {
    forall h | h in victims ensures d.home[h] == u {}
  }

  /** At the end every host that was moved is in the one ungrouped workspace. */
  lemma EmptiedEnd(s: Db, d: Db, done: set<GroupId>, victims: set<HostId>, u: GroupId, org: OrgId)
    requires Good(s) && Emptied(s, d, done, org)
    requires forall g :: g in done ==> InOrg(s, g, org)
    requires victims == set h | h in s.home && s.home[h] in done
    requires victims == {} || UngroupedIn(d, u, org)
    ensures var f := Show(d, victims, u, org);
            Good(f) && f.home == Moved(s.home, victims, u) && SameOrgs(f.hosts, s.hosts)
  {
    hide OneUngroupedEach, AssocsOf;
    var f := Show(d, victims, u, org);
    AllInOne(s, d, done, victims, u, org);
    ShowSane(d, victims, u, org);
    forall h | h in f.hosts
      ensures f.groups[f.home[h]].org == f.hosts[h].org
      ensures f.hosts[h].groups == [GroupRef(f.home[h], f.groups[f.home[h]].name)]
    {
      if h in victims {
        assert s.hosts[h].org == org;
      } else {
        assert f.home[h] == s.home[h] && f.hosts[h] == s.hosts[h];
      }
    }
  }

  /** What the victims of a deletion are: the members of the listed groups. */
  lemma VictimsAre(s: Db, ids: set<GroupId>, org: OrgId)
    requires Good(s)
    ensures (set a | a in AssocsOf(s.hosts, s.home) && a.org == org && a.group in ids :: a.host)
         == set h | h in s.home && s.home[h] in ids && InOrg(s, s.home[h], org)
  {
    var l := set a | a in AssocsOf(s.hosts, s.home) && a.org == org && a.group in ids :: a.host;
    forall h ensures h in l <==> h in s.home && s.home[h] in ids && InOrg(s, s.home[h], org) {
      if h in s.home {
        AssocsIff(s.hosts, s.home, Assoc(h, s.home[h], s.hosts[h].org));
      }
      if h in l {
        var a :| a in AssocsOf(s.hosts, s.home) && a.org == org && a.group in ids && a.host == h;
        AssocsIff(s.hosts, s.home, a);
      }
    }
  }

  lemma EmptiedStart(s: Db, org: OrgId)
    requires Good(s)
    ensures Emptied(s, s, {}, org)
  {}

  /** A group refers to associations exactly when somebody is at home in it. */
  lemma ReferredTo(db: Db, g: GroupId)
    requires Sane(db)
    ensures (forall a :: a in AssocsOf(db.hosts, db.home) ==> a.group != g) <==> forall h :: h in db.home ==> db.home[h] != g
  {
    forall h | h in db.home ensures Assoc(h, db.home[h], db.hosts[h].org) in AssocsOf(db.hosts, db.home) {}
  }

  /** The members of a group not deleted yet are hosts of its organisation. */
  lemma MembersAtHome(s: Db, d: Db, done: set<GroupId>, g: GroupId, org: OrgId)
    requires Good(s) && Emptied(s, d, done, org) && InOrg(s, g, org)
    requires forall k :: k in done ==> InOrg(s, k, org)
    ensures AtHome(d, d.home.Keys, g, org) == Members(d.home, g)
  {
    hide OneUngroupedEach;
    forall h | h in d.home && d.home[h] == g ensures d.hosts[h].org == org {
      assert h in s.hosts && InOrg(s, s.home[h], s.hosts[h].org);
      assert InOrg(s, s.home[h], org);
    }
  }

  predicate NoMembers(db: Db, g: GroupId) {
    forall h :: h in db.home ==> db.home[h] != g
  }

  /** After the move somebody is still in the group exactly when it is the ungrouped one
      and had members. */
  lemma StillThereIff(s: Db, d: Db, e: Db, done: set<GroupId>, g: GroupId, u: GroupId, org: OrgId)
    requires Emptied(s, d, done, org) && InOrg(s, g, org) && g !in done && Sane(e)
    requires UngroupedIn(e, u, org) && GrewBy(d.groups, e.groups, u)
    requires e == Move(d.(groups := e.groups), Members(d.home, g), u)
    ensures NoMembers(e, g) <==> (s.groups[g].ungrouped ==> NoMembers(d, g))
  {
    assert d.groups[g] == s.groups[g] && e.groups[g] == d.groups[g];
    assert u == g <==> s.groups[g].ungrouped;
    if u != g {
      forall h | h in e.home ensures e.home[h] != g {
        assert h in Members(d.home, g) <==> d.home[h] == g;
      }
    } else {
      assert e.home == d.home;
    }
  }

  /** The listed groups that exist in the organisation. */
  function Listed(s: Db, ids: set<GroupId>, org: OrgId): set<GroupId> {
    set g | g in ids && InOrg(s, g, org)
  }

  lemma ListedInOrg(s: Db, ids: set<GroupId>, order: seq<GroupId>, org: OrgId)
    requires Elements(order) == Listed(s, ids, org)
    ensures forall i :: 0 <= i < |order| ==> InOrg(s, order[i], org)
  {
    forall i | 0 <= i < |order| ensures InOrg(s, order[i], org) {
      assert order[i] in Elements(order);
    }
  }

  /** Whether the i-th of the listed groups can be emptied and deleted once those before
      it are: an ungrouped workspace must be there or creatable, and if the group is that
      workspace itself, nobody may be in it or have been moved into it. */
  predicate CanEmpty(s: Db, order: seq<GroupId>, org: OrgId, canCreate: bool, i: nat)
    requires i < |order|
  {
    && (canCreate || (HasUngrouped(s, org) && forall k :: 0 <= k < i ==> !UngroupedIn(s, order[k], org)))
    && (UngroupedIn(s, order[i], org) ==> forall k :: 0 <= k <= i ==> NoMembers(s, order[k]))
  }

  /** In this order all of them can. */
  predicate CanEmptyAll(s: Db, order: seq<GroupId>, org: OrgId, canCreate: bool) {
    forall i :: 0 <= i < |order| ==> CanEmpty(s, order, org, canCreate, i)
  }

  /** Without the ungrouped workspace among them the order does not matter. */
  lemma OrderIndifferent(s: Db, order: seq<GroupId>, org: OrgId, canCreate: bool)
    requires forall i :: 0 <= i < |order| ==> !UngroupedIn(s, order[i], org)
    ensures CanEmptyAll(s, order, org, canCreate) <==> order == [] || canCreate || HasUngrouped(s, org)
  {
    hide HasUngrouped, UngroupedIn;
    if order != [] && CanEmptyAll(s, order, org, canCreate) {
      assert CanEmpty(s, order, org, canCreate, 0);
    }
  }

  /** What has happened when the first i of them are done. */
  predicate EmptiedUpTo(s: Db, d: Db, order: seq<GroupId>, org: OrgId, canCreate: bool, i: nat)
    requires i <= |order|
  {
    Emptied(s, d, Elements(order[..i]), org) && (!canCreate ==> d.groups.Keys <= s.groups.Keys)
  }

  lemma OneMoreOf(order: seq<GroupId>, i: nat)
    requires Distinct(order) && i < |order|
    ensures order[i] !in Elements(order[..i]) && Elements(order[..i + 1]) == Elements(order[..i]) + {order[i]}
    ensures forall g :: g in Elements(order[..i]) <==> exists k :: 0 <= k < i && order[k] == g
  {
    assert order[..i + 1] == order[..i] + [order[i]];
  }

  lemma UngroupedLeftIff(s: Db, d: Db, order: seq<GroupId>, org: OrgId, i: nat)
    requires Good(s) && Distinct(order) && i < |order| && EmptiedUpTo(s, d, order, org, false, i)
    ensures HasUngrouped(d, org) <==> HasUngrouped(s, org) && forall k :: 0 <= k < i ==> !UngroupedIn(s, order[k], org)
  {
    OneMoreOf(order, i);
    if HasUngrouped(d, org) {
      var u :| u in d.groups && d.groups[u].org == org && d.groups[u].ungrouped;
      assert u in s.groups && u !in Elements(order[..i]) && s.groups[u] == d.groups[u];
    }
    if HasUngrouped(s, org) && forall k :: 0 <= k < i ==> !UngroupedIn(s, order[k], org) {
      var u :| u in s.groups && s.groups[u].org == org && s.groups[u].ungrouped;
      assert UngroupedIn(s, u, org) && u in d.groups;
    }
  }

  lemma UngroupedEmptyIff(s: Db, d: Db, order: seq<GroupId>, org: OrgId, canCreate: bool, i: nat)
    requires Good(s) && Distinct(order) && i < |order| && EmptiedUpTo(s, d, order, org, canCreate, i)
    requires UngroupedIn(s, order[i], org)
    ensures NoMembers(d, order[i]) <==> forall k :: 0 <= k <= i ==> NoMembers(s, order[k])
  {
    OneMoreOf(order, i);
    var u := order[i];
    assert UngroupedIn(d, u, org);
    forall h | h in s.home
      ensures d.home[h] == u <==> exists k :: 0 <= k <= i && s.home[h] == order[k]
    {
      if s.home[h] in Elements(order[..i]) {
        assert UngroupedIn(d, d.home[h], org);
      }
    }
    if forall k :: 0 <= k <= i ==> NoMembers(s, order[k]) {
      forall h | h in d.home ensures d.home[h] != u {
        assert h in s.home;
      }
    }
    if NoMembers(d, u) {
      forall k | 0 <= k <= i ensures NoMembers(s, order[k]) {
        forall h | h in s.home ensures s.home[h] != order[k] {
          assert h in d.home;
        }
      }
    }
  }

  /** The next one goes exactly when it can. */
  lemma NextGoesIff(s: Db, d: Db, order: seq<GroupId>, org: OrgId, canCreate: bool, i: nat)
    requires Good(s) && Distinct(order) && i < |order| && EmptiedUpTo(s, d, order, org, canCreate, i) && InOrg(s, order[i], org)
    ensures CanEmpty(s, order, org, canCreate, i)
       <==> (canCreate || HasUngrouped(d, org)) && (s.groups[order[i]].ungrouped ==> NoMembers(d, order[i]))
  {
    if !canCreate {
      UngroupedLeftIff(s, d, order, org, i);
    }
    if s.groups[order[i]].ungrouped {
      UngroupedEmptyIff(s, d, order, org, canCreate, i);
    }
    hide Good, EmptiedUpTo, HasUngrouped, NoMembers;
  }

  lemma SomeoneMoved(s: Db, d: Db, done: set<GroupId>, org: OrgId, h: HostId) returns (u: GroupId)
    requires Emptied(s, d, done, org) && h in s.home && s.home[h] in done
    ensures UngroupedIn(d, u, org) && HasUngrouped(d, org)
  {
    u := d.home[h];
  }

  lemma ShowNobody(db: Db, u: GroupId, org: OrgId)
    ensures Show(db, {}, u, org) == db
  {}

  lemma EmptiedGroups(s: Db, d: Db, done: set<GroupId>, org: OrgId)
    requires Emptied(s, d, done, org)
    ensures forall k :: k in s.groups ==> if k in done then k !in d.groups else k in d.groups && d.groups[k] == s.groups[k]
  {}

  /* ---------- creation and deletion of single rows ---------- */

  lemma CreatedGroupGood(db: Db, g: GroupId, row: GroupRow)
    requires Good(db) && g !in db.groups && !row.ungrouped
    ensures Good(db.(groups := db.groups[g := row]))
  {}

  lemma GoodSane(db: Db)
    requires Good(db)
    ensures Sane(db)
  {}

  /** A group that is new has no members, so every listed host needs a row. */
  lemma NobodyYet(db: Db, ids: seq<HostId>, g: GroupId, org: OrgId)
    requires Sane(db) && g !in db.groups
    ensures NotYetIn(ids, Rows(AssocsOf(db.hosts, db.home), g, org)) == ids
    decreases |ids|
  {
    RowsAreAtHome(db, g, org);
    if ids != [] {
      NobodyYet(db, ids[..|ids| - 1], g, org);
      assert ids[|ids| - 1] !in Rows(AssocsOf(db.hosts, db.home), g, org);
    }
  }

  lemma CreatedHostGood(db: Db, h: HostId, u: GroupId, org: OrgId)
    requires Good(db) && h !in db.hosts && InOrg(db, u, org)
    ensures var row := HostRow(org, [GroupRef(u, db.groups[u].name)]);
            var d := db.(hosts := db.hosts[h := row], home := db.home[h := u]);
            Good(d) && AssocsOf(d.hosts, d.home) == AssocsOf(db.hosts, db.home) + {Assoc(h, u, org)}
  {
    var row := HostRow(org, [GroupRef(u, db.groups[u].name)]);
    var d := db.(hosts := db.hosts[h := row], home := db.home[h := u]);
    forall a ensures a in AssocsOf(d.hosts, d.home) <==> a in AssocsOf(db.hosts, db.home) + {Assoc(h, u, org)} {
      AssocsIff(d.hosts, d.home, a);
      AssocsIff(db.hosts, db.home, a);
    }
  }
}
