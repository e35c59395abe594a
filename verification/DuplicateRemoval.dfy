/** The job that deletes duplicate hosts of one organisation, page by page. */
module DuplicateRemoval {
  import opened Common
  import opened FactMatching

  /* ---------- the match relation ---------- */

  function Selected(target: seq<Item>, all: set<Host>): set<Host> {
    set h | h in all && SelectedSql(h, target)
  }

  /** The rows of the first search that finds any. */
  function FirstFound(stages: seq<Stage>, all: set<Host>): set<Host> {
    if stages == [] then {}
    else
      var found := Selected(stages[0].target, all);
      if found != {} then found else FirstFound(stages[1..], all)
  }

  /** The facts of a host, as texts whatever form it holds them in. */
  function FactsOf(h: Host): FactMap {
    map f | f in h.columns :: h.columns[f].text
  }

  /** The hosts that match a host's own facts, in the organisation `all`. */
  function Matching(h: Host, all: set<Host>, useSubmanId: bool): set<Host> {
    FirstFound(Stages(FactsOf(h), useSubmanId, false), all)
  }

  /** The facts a host with an id fact is searched by: those of its first stage. */
  function OwnTarget(h: Host, useSubmanId: bool): seq<Item> {
    var stages := Stages(FactsOf(h), useSubmanId, false);
    if stages == [] then [] else stages[0].target
  }

  predicate HasIdFact(h: Host, useSubmanId: bool) {
    Stages(FactsOf(h), useSubmanId, false) != []
  }

  lemma SelectsItself(h: Host, useSubmanId: bool)
    requires HasIdFact(h, useSubmanId)
    ensures SelectedSql(h, OwnTarget(h, useSubmanId))
  {
    var stages := Stages(FactsOf(h), useSubmanId, false);
    var s := stages[0];
    assert s in stages;
    TargetsPaired(FactsOf(h), useSubmanId, false, s);
    var x := Item(s.key, FactsOf(h)[s.key]);
    assert x in s.target && !IsCompound(x.key);
    NoIncorrectMeans(h, s.target);
    AtLeastOneMeans(h, s.target);
  }

  /** A stored host always finds itself at its first stage, so no later stage is
      ever reached. */
  lemma MatchingIsFirstStage(h: Host, all: set<Host>, useSubmanId: bool)
    requires h in all
    ensures Matching(h, all, useSubmanId) ==
            if HasIdFact(h, useSubmanId) then Selected(OwnTarget(h, useSubmanId), all) else {}
    ensures HasIdFact(h, useSubmanId) ==> h in Matching(h, all, useSubmanId)
  {
    if HasIdFact(h, useSubmanId) {
      SelectsItself(h, useSubmanId);
      assert h in Selected(OwnTarget(h, useSubmanId), all);
    }
  }

  lemma MatchingShrinks(h: Host, all: set<Host>, fewer: set<Host>, useSubmanId: bool)
    requires h in fewer && fewer <= all
    ensures Matching(h, fewer, useSubmanId) == Matching(h, all, useSubmanId) * fewer
  {
    MatchingIsFirstStage(h, all, useSubmanId);
    MatchingIsFirstStage(h, fewer, useSubmanId);
  }

  /** What one host sees of another. */
  lemma SeesIff(a: Host, b: Host, all: set<Host>, useSubmanId: bool)
    requires a in all && b in all && HasIdFact(a, useSubmanId)
    ensures b in Matching(a, all, useSubmanId) <==>
      NoIncorrect(b, OwnTarget(a, useSubmanId)) && SharesOne(b, OwnTarget(a, useSubmanId))
  {
    MatchingIsFirstStage(a, all, useSubmanId);
    NoIncorrectMeans(b, OwnTarget(a, useSubmanId));
    AtLeastOneMeans(b, OwnTarget(a, useSubmanId));
  }

  /** One host matches a second without being matched by it, and the second a third
      that the first does not match: the relation is neither symmetric nor transitive,
      and deleting along it is. */
  lemma MatchingIsNeitherSymmetricNorTransitive()
    ensures var p, t := Text("p"), Text("t");
            var a := Host(0, "o", map[InsightsId := Uuid(UUID_ONE), SubscriptionManagerId := Text("s")], None);
            var b := Host(1, "o", map[InsightsId := Uuid(UUID_TWO), SubscriptionManagerId := Text("s"), ProviderId := p, ProviderType := t], None);
            var c := Host(2, "o", map[InsightsId := Uuid(UUID_TWO), SubscriptionManagerId := Text("u"), ProviderId := p, ProviderType := t], None);
            && b in Matching(a, {a, b, c}, false) && a !in Matching(b, {a, b, c}, false)
            && c in Matching(b, {a, b, c}, false) && c !in Matching(a, {a, b, c}, false)
  {
    var p, t := Text("p"), Text("t");
    var a := Host(0, "o", map[InsightsId := Uuid(UUID_ONE), SubscriptionManagerId := Text("s")], None);
    var b := Host(1, "o", map[InsightsId := Uuid(UUID_TWO), SubscriptionManagerId := Text("s"), ProviderId := p, ProviderType := t], None);
    var c := Host(2, "o", map[InsightsId := Uuid(UUID_TWO), SubscriptionManagerId := Text("u"), ProviderId := p, ProviderType := t], None);
    hide Matching, Digits;
    CopyIff(a, b, {a, b, c}, false);
    CopyIff(a, c, {a, b, c}, false);
    CopyIff(b, a, {a, b, c}, false);
    CopyIff(b, c, {a, b, c}, false);
  }

  /** Both have a value, and the same. */
  predicate SameValue(a: Host, b: Host, f: Fact) {
    && f in a.columns && f in b.columns
    && if f == InsightsId then Digits(a.columns[f].text) == Digits(b.columns[f].text)
       else a.columns[f].text == b.columns[f].text
  }

  /** `b` is taken for a copy of `a`: the first id that `a` has decides, and with a
      provider id also its type where both have one. */
  predicate CopyOf(b: Host, a: Host, useSubmanId: bool) {
    if ProviderId in a.columns && !useSubmanId then
      SameValue(a, b, ProviderId)
      && (ProviderType in b.columns && ProviderType in a.columns && a.columns[ProviderType].text != "" ==> SameValue(a, b, ProviderType))
    else if SubscriptionManagerId in a.columns then SameValue(a, b, SubscriptionManagerId)
    else !useSubmanId && SameValue(a, b, InsightsId)
  }

  /** What a host's query finds, on the columns. */
  lemma CopyIff(a: Host, b: Host, all: set<Host>, useSubmanId: bool)
    requires a in all && b in all
    ensures b in Matching(a, all, useSubmanId) <==> CopyOf(b, a, useSubmanId)
  {
    MatchingIsFirstStage(a, all, useSubmanId);
    if HasIdFact(a, useSubmanId) {
      SeesIff(a, b, all, useSubmanId);
      CopyMatches(a, b, useSubmanId);
    } else {
      NoIdNoCopy(a, b, useSubmanId);
    }
  }

  lemma NoIdNoCopy(a: Host, b: Host, useSubmanId: bool)
    requires !HasIdFact(a, useSubmanId)
    ensures !CopyOf(b, a, useSubmanId)
  {
    NoStageIff(FactsOf(a), useSubmanId, false);
    hide Stages, Digits;
  }

  lemma CopyMatches(a: Host, b: Host, useSubmanId: bool)
    requires HasIdFact(a, useSubmanId)
    ensures NoIncorrect(b, OwnTarget(a, useSubmanId)) && SharesOne(b, OwnTarget(a, useSubmanId)) <==> CopyOf(b, a, useSubmanId)
  {
    OwnTargetIs(a, useSubmanId);
    var target := OwnTarget(a, useSubmanId);
    forall x | x in target ensures Has(b, x) <==> SameValue(a, b, x.key) {
      hide Digits;
    }
    hide HasIdFact, OwnTarget, SameValue, Has;
    assert target[0] in target;
    if |target| == 2 {
      assert target[1] in target;
      assert forall x :: x in target <==> x == target[0] || x == target[1];
    } else {
      assert forall x :: x in target <==> x == target[0];
    }
  }

  /** The facts of a host's first search, on the columns. */
  lemma OwnTargetIs(a: Host, useSubmanId: bool)
    requires HasIdFact(a, useSubmanId)
    ensures var target := OwnTarget(a, useSubmanId);
            && 0 < |target| <= 2 && (forall x :: x in target ==> x.key in a.columns && x.value == a.columns[x.key].text)
            && target[0].key == (if ProviderId in a.columns && !useSubmanId then ProviderId
                                 else if SubscriptionManagerId in a.columns then SubscriptionManagerId else InsightsId)
            && (|target| == 2 <==> && ProviderId in a.columns && !useSubmanId
                                   && ProviderType in a.columns && a.columns[ProviderType].text != "")
            && (|target| == 2 ==> target[1].key == ProviderType)
  {
  }

  /** No two hosts are taken for copies. */
  predicate NoCopies(all: set<Host>, useSubmanId: bool) {
    forall a, b :: a in all && b in all && CopyOf(b, a, useSubmanId) ==> a == b
  }

  /** `d` may go: some host takes it and another for its copies, and that other has
      checked in no earlier or never. */
  predicate Superseded(d: Host, all: set<Host>, useSubmanId: bool) {
    exists x, n :: && x in all && n in all && n != d && CopyOf(d, x, useSubmanId) && CopyOf(n, x, useSubmanId)
                   && (n.checkIn.None? || (d.checkIn.Some? && d.checkIn.value <= n.checkIn.value))
  }

  lemma SettledIff(all: set<Host>, useSubmanId: bool)
    ensures AllSettled(all, useSubmanId) <==> NoCopies(all, useSubmanId)
  {
    forall a | a in all ensures Settled(a, all, useSubmanId) <==> forall b :: b in all && CopyOf(b, a, useSubmanId) ==> a == b {
      OneSettledIff(a, all, useSubmanId);
    }
    hide Settled, CopyOf;
  }

  lemma OneSettledIff(a: Host, all: set<Host>, useSubmanId: bool)
    requires a in all
    ensures Settled(a, all, useSubmanId) <==> forall b :: b in all && CopyOf(b, a, useSubmanId) ==> a == b
  {
    MatchingIsThere(a, all, useSubmanId);
    forall b | b in all ensures b in Matching(a, all, useSubmanId) <==> CopyOf(b, a, useSubmanId) {
      CopyIff(a, b, all, useSubmanId);
    }
    hide Matching, CopyOf;
  }

  /** A duplicate of a page is superseded, however ties fall. */
  lemma DuplicateIsSuperseded(d: Host, keeps: map<Host, Host>, page: set<Host>, now: set<Host>, all: set<Host>, useSubmanId: bool)
    requires page <= now <= all && ValidKeeps(keeps, page, now, useSubmanId) && d in Duplicates(keeps, page, now, useSubmanId)
    ensures Superseded(d, all, useSubmanId)
  {
    var x :| x in page && x in keeps && d in Surplus(x, keeps[x], now, useSubmanId);
    MatchingIsThere(x, now, useSubmanId);
    CopyIff(x, d, now, useSubmanId);
    hide Matching, CopyOf;
    assert ComesFirst(keeps[x], Matching(x, now, useSubmanId));
    CopyIff(x, keeps[x], now, useSubmanId);
  }

  /** Nothing but possibly itself matches the host. */
  predicate Settled(h: Host, all: set<Host>, useSubmanId: bool) {
    Matching(h, all, useSubmanId) <= {h}
  }

  predicate AllSettled(all: set<Host>, useSubmanId: bool) {
    forall h :: h in all ==> Settled(h, all, useSubmanId)
  }

  /* ---------- what a page contributes ---------- */

  /** In descending order of check-in, where PostgreSQL puts NULL first: `b` comes
      before `a`. */
  predicate Below(a: Option<int>, b: Option<int>) {
    a.Some? && (b.None? || a.value < b.value)
  }

  /** First in that order; ties fall as the database likes. */
  predicate ComesFirst(n: Host, found: set<Host>) {
    n in found && forall m :: m in found ==> !Below(n.checkIn, m.checkIn)
  }

  /** Everything that matches `x` except the host kept for it. */
  function Surplus(x: Host, keep: Host, all: set<Host>, useSubmanId: bool): set<Host> {
    Matching(x, all, useSubmanId) - {keep}
  }

  predicate ValidKeeps(keeps: map<Host, Host>, page: set<Host>, all: set<Host>, useSubmanId: bool) {
    forall x :: x in page && Matching(x, all, useSubmanId) != {} ==>
      x in keeps && ComesFirst(keeps[x], Matching(x, all, useSubmanId))
  }

  /** The duplicates found on a page. */
  function Duplicates(keeps: map<Host, Host>, page: set<Host>, all: set<Host>, useSubmanId: bool): set<Host> {
    set x, d | x in page && x in keeps && d in Surplus(x, keeps[x], all, useSubmanId) :: d
  }

  /** An order that settles what check-ins leave open: of two copies it tells the one to
      be kept, `rank(a, b)` if that is `b`. */
  type Rank = (Host, Host) -> bool

  ghost predicate IsOrder(rank: Rank) {
    && (forall a :: !rank(a, a))
    && (forall a, b, c :: rank(a, b) && rank(b, c) ==> rank(a, c))
  }

  const CHECK_IN: Rank := (a: Host, b: Host) => Below(a.checkIn, b.checkIn)

  /** `n` stands above all others found. */
  predicate Leads(n: Host, found: set<Host>, rank: Rank) {
    n in found && forall m :: m in found && m != n ==> rank(m, n)
  }

  /** The same order decides every tie on the page. */
  predicate KeepsLeaders(keeps: map<Host, Host>, page: set<Host>, all: set<Host>, useSubmanId: bool, rank: Rank) {
    forall x :: x in page && Matching(x, all, useSubmanId) != {} ==>
      x in keeps && Leads(keeps[x], Matching(x, all, useSubmanId), rank)
  }

  /** Once its page is through, a host that is still there matches only itself,
      however ties fell. */
  lemma PageSettles(x: Host, keeps: map<Host, Host>, page: set<Host>, all: set<Host>, useSubmanId: bool)
    requires page <= all && ValidKeeps(keeps, page, all, useSubmanId)
    requires x in page && x !in Duplicates(keeps, page, all, useSubmanId)
    ensures Settled(x, all - Duplicates(keeps, page, all, useSubmanId), useSubmanId)
  {
    var rest := all - Duplicates(keeps, page, all, useSubmanId);
    MatchingIsFirstStage(x, all, useSubmanId);
    MatchingShrinks(x, all, rest, useSubmanId);
    if HasIdFact(x, useSubmanId) {
      var surplus := Surplus(x, keeps[x], all, useSubmanId);
      assert forall d :: d in surplus ==> d in Duplicates(keeps, page, all, useSubmanId);
      assert x !in surplus;
      assert keeps[x] == x;
    }
  }

  lemma SettledStays(x: Host, all: set<Host>, fewer: set<Host>, useSubmanId: bool)
    requires x in fewer && fewer <= all && Settled(x, all, useSubmanId)
    ensures Settled(x, fewer, useSubmanId)
  {
    MatchingShrinks(x, all, fewer, useSubmanId);
  }

  /** Where every host matches only itself, no page has a duplicate. */
  lemma SettledHasNoDuplicates(keeps: map<Host, Host>, page: set<Host>, all: set<Host>, useSubmanId: bool)
    requires page <= all && ValidKeeps(keeps, page, all, useSubmanId) && AllSettled(all, useSubmanId)
    ensures Duplicates(keeps, page, all, useSubmanId) == {}
  {
    forall x | x in page && x in keeps ensures Surplus(x, keeps[x], all, useSubmanId) == {} {
      hide Matching;
      assert Settled(x, all, useSubmanId);
    }
  }

  /** Hosts that all match exactly one another. */
  predicate Cluster(c: set<Host>, useSubmanId: bool) {
    c != {} && forall x :: x in c ==> Matching(x, c, useSubmanId) == c
  }

  predicate Tied(c: set<Host>) {
    exists a, b :: a in c && b in c && a != b && ComesFirst(a, c) && ComesFirst(b, c)
  }

  /** Some way of breaking ties deletes every host of the cluster. */
  ghost predicate CanLoseAll(c: set<Host>, useSubmanId: bool) {
    exists keeps :: ValidKeeps(keeps, c, c, useSubmanId) && Duplicates(keeps, c, c, useSubmanId) == c
  }

  lemma ClusterKeeps(keeps: map<Host, Host>, c: set<Host>, useSubmanId: bool)
    requires Cluster(c, useSubmanId) && c <= keeps.Keys && forall n :: n in keeps.Values ==> ComesFirst(n, c)
    ensures ValidKeeps(keeps, c, c, useSubmanId)
  {
    hide Matching, ComesFirst;
    assert forall x :: x in c ==> keeps[x] in keeps.Values;
  }

  lemma KeepsOne(keeps: map<Host, Host>, page: set<Host>, all: set<Host>, useSubmanId: bool, x: Host)
    requires ValidKeeps(keeps, page, all, useSubmanId) && x in page
    ensures Matching(x, all, useSubmanId) != {} ==> x in keeps && ComesFirst(keeps[x], Matching(x, all, useSubmanId))
  {
    hide Matching, ComesFirst;
  }

  lemma ClusterMatches(c: set<Host>, useSubmanId: bool, x: Host)
    requires Cluster(c, useSubmanId) && x in c
    ensures Matching(x, c, useSubmanId) == c
  {
  }

  lemma ClusterDuplicate(keeps: map<Host, Host>, c: set<Host>, useSubmanId: bool, d: Host)
    requires Cluster(c, useSubmanId)
    ensures d in Duplicates(keeps, c, c, useSubmanId) <==> d in c && exists x :: x in c && x in keeps && keeps[x] != d
  {
    hide Matching;
    if d in Duplicates(keeps, c, c, useSubmanId) {
      var x :| x in c && x in keeps && d in Surplus(x, keeps[x], c, useSubmanId);
    }
    if x :| d in c && x in c && x in keeps && keeps[x] != d {
      assert d in Surplus(x, keeps[x], c, useSubmanId);
    }
  }

  lemma ClusterMember(c: set<Host>, useSubmanId: bool) returns (x: Host)
    requires Cluster(c, useSubmanId)
    ensures x in c
  {
    x :| x in c;
  }

  /** All copies can be lost exactly when two of them tie for the newest. */
  lemma TiesLoseAllIff(c: set<Host>, useSubmanId: bool)
    requires Cluster(c, useSubmanId)
    ensures CanLoseAll(c, useSubmanId) <==> Tied(c)
  {
    hide Cluster, ValidKeeps, Duplicates, ComesFirst;
    if Tied(c) {
      var a, b :| a in c && b in c && a != b && ComesFirst(a, c) && ComesFirst(b, c);
      SplitVoteLosesAll(c, a, b, useSubmanId);
    }
    if CanLoseAll(c, useSubmanId) {
      var keeps :| ValidKeeps(keeps, c, c, useSubmanId) && Duplicates(keeps, c, c, useSubmanId) == c;
      var x := ClusterMember(c, useSubmanId);
      ClusterMatches(c, useSubmanId, x);
      KeepsOne(keeps, c, c, useSubmanId, x);
      NewestIsFound(keeps[x], c);
      ClusterDuplicate(keeps, c, useSubmanId, keeps[x]);
      var y :| y in c && y in keeps && keeps[y] != keeps[x];
      ClusterMatches(c, useSubmanId, y);
      KeepsOne(keeps, c, c, useSubmanId, y);
      TwoNewest(c, keeps[x], keeps[y]);
    }
  }

  lemma NewestIsFound(n: Host, found: set<Host>)
    requires ComesFirst(n, found)
    ensures n in found
  {
  }

  lemma TwoNewest(c: set<Host>, a: Host, b: Host)
    requires ComesFirst(a, c) && ComesFirst(b, c) && a != b
    ensures a in c && b in c && Tied(c)
  {
  }

  lemma SplitVoteLosesAll(c: set<Host>, a: Host, b: Host, useSubmanId: bool)
    requires Cluster(c, useSubmanId) && a in c && b in c && a != b && ComesFirst(a, c) && ComesFirst(b, c)
    ensures CanLoseAll(c, useSubmanId)
  {
    hide Cluster, ValidKeeps, Duplicates, ComesFirst;
    var keeps := map x | x in c :: if x == a then a else b;
    assert forall n :: n in keeps.Values ==> n == a || n == b;
    ClusterKeeps(keeps, c, useSubmanId);
    assert keeps[a] == a && keeps[b] == b;
    forall d ensures d in Duplicates(keeps, c, c, useSubmanId) <==> d in c {
      ClusterDuplicate(keeps, c, useSubmanId, d);
    }
    assert Duplicates(keeps, c, c, useSubmanId) == c;
  }

  /* ---------- nothing is lost without a preferred copy ---------- */

  /** Some stored host is matched by both, and `n` is the one to keep of the two. */
  predicate PreferredCopy(d: Host, n: Host, all: set<Host>, useSubmanId: bool, rank: Rank) {
    !Below(n.checkIn, d.checkIn) && rank(d, n) && n in all
    && exists x :: x in all && d in Matching(x, all, useSubmanId) && n in Matching(x, all, useSubmanId)
  }

  /** A chain of ever more preferred copies leads from `d` to a host in `kept`. */
  ghost predicate Represented(d: Host, kept: set<Host>, all: set<Host>, useSubmanId: bool, rank: Rank, chain: seq<Host>) {
    && chain != [] && chain[0] == d && chain[|chain| - 1] in kept
    && forall i :: 0 <= i < |chain| - 1 ==> PreferredCopy(chain[i], chain[i + 1], all, useSubmanId, rank)
  }

  ghost predicate AllRepresented(kept: set<Host>, all: set<Host>, useSubmanId: bool, rank: Rank) {
    forall d :: d in all ==> exists chain :: Represented(d, kept, all, useSubmanId, rank, chain)
  }

  /** A page with its decisions, in the table as it is then. */
  ghost predicate PageOf(keeps: map<Host, Host>, page: set<Host>, now: set<Host>, all: set<Host>, useSubmanId: bool, rank: Rank) {
    && page <= now && now <= all && IsOrder(rank)
    && ValidKeeps(keeps, page, now, useSubmanId) && KeepsLeaders(keeps, page, now, useSubmanId, rank)
  }

  /** A duplicate of a page has a preferred copy that was there at the time. */
  lemma DuplicateHasCopy(d: Host, keeps: map<Host, Host>, page: set<Host>, now: set<Host>, all: set<Host>, useSubmanId: bool, rank: Rank)
    returns (n: Host)
    requires PageOf(keeps, page, now, all, useSubmanId, rank) && d in Duplicates(keeps, page, now, useSubmanId)
    ensures n in now && PreferredCopy(d, n, all, useSubmanId, rank)
  {
    var x :| x in page && x in keeps && d in Surplus(x, keeps[x], now, useSubmanId);
    n := keeps[x];
    MatchingIsFirstStage(x, now, useSubmanId);
    MatchingShrinks(x, all, now, useSubmanId);
    assert n in now && n in Matching(x, now, useSubmanId) && d in Matching(x, now, useSubmanId);
  }

  function Higher(d: Host, now: set<Host>, rank: Rank): set<Host> {
    set h | h in now && rank(d, h)
  }

  /** Following preferred copies ends at a host that stays, if only some of the duplicates
      of a page are deleted in the end. */
  lemma {:induction false} ChainToSurvivor(d: Host, keeps: map<Host, Host>, page: set<Host>, now: set<Host>, all: set<Host>,
                                           dead: set<Host>, useSubmanId: bool, rank: Rank) returns (chain: seq<Host>)
    requires PageOf(keeps, page, now, all, useSubmanId, rank) && d in now
    requires dead <= Duplicates(keeps, page, now, useSubmanId)
    ensures Represented(d, now - dead, all, useSubmanId, rank, chain)
    decreases |Higher(d, now, rank)|
  {
    assert IsOrder(rank);
    hide PageOf, Duplicates, PreferredCopy, IsOrder;
    if d !in dead {
      chain := [d];
    } else {
      var n := DuplicateHasCopy(d, keeps, page, now, all, useSubmanId, rank);
      CopyIsHigher(d, n, now, all, useSubmanId, rank);
      var rest := ChainToSurvivor(n, keeps, page, now, all, dead, useSubmanId, rank);
      chain := [d] + rest;
    }
  }

  lemma CopyIsHigher(d: Host, n: Host, now: set<Host>, all: set<Host>, useSubmanId: bool, rank: Rank)
    requires IsOrder(rank) && n in now && PreferredCopy(d, n, all, useSubmanId, rank)
    ensures |Higher(n, now, rank)| < |Higher(d, now, rank)|
  {
    var a, b := Higher(n, now, rank), Higher(d, now, rank);
    assert a <= b && n in b && n !in a;
    assert b == a + (b - a) && n in b - a;
    assert |b| == |a| + |b - a|;
  }

  lemma JoinChains(d: Host, c1: seq<Host>, c2: seq<Host>, mid: set<Host>, kept: set<Host>, all: set<Host>, useSubmanId: bool, rank: Rank)
    requires Represented(d, mid, all, useSubmanId, rank, c1)
    requires Represented(c1[|c1| - 1], kept, all, useSubmanId, rank, c2)
    ensures Represented(d, kept, all, useSubmanId, rank, c1[..|c1| - 1] + c2)
  {
    hide PreferredCopy;
    var k := |c1| - 1;
    var c := c1[..k] + c2;
    assert c[k] == c2[0] == c1[k];
    forall i | 0 <= i < |c| - 1 ensures PreferredCopy(c[i], c[i + 1], all, useSubmanId, rank) {
      if i < k {
        assert c[i] == c1[i] && c[i + 1] == c1[i + 1];
      } else {
        assert c[i] == c2[i - k] && c[i + 1] == c2[i - k + 1];
      }
    }
  }

  /** However many of a page's duplicates are deleted, every original host stays
      represented. */
  lemma PageKeepsRepresented(keeps: map<Host, Host>, page: set<Host>, now: set<Host>, all: set<Host>, dead: set<Host>,
                             useSubmanId: bool, rank: Rank)
    requires PageOf(keeps, page, now, all, useSubmanId, rank) && dead <= Duplicates(keeps, page, now, useSubmanId)
    requires AllRepresented(now, all, useSubmanId, rank)
    ensures AllRepresented(now - dead, all, useSubmanId, rank)
  {
    hide PageOf, Duplicates;
    forall d | d in all ensures exists chain :: Represented(d, now - dead, all, useSubmanId, rank, chain) {
      var c1 :| Represented(d, now, all, useSubmanId, rank, c1);
      LastIsKept(d, now, all, useSubmanId, rank, c1);
      hide Represented;
      var c2 := ChainToSurvivor(c1[|c1| - 1], keeps, page, now, all, dead, useSubmanId, rank);
      JoinChains(d, c1, c2, now, now - dead, all, useSubmanId, rank);
    }
  }

  lemma LastIsKept(d: Host, kept: set<Host>, all: set<Host>, useSubmanId: bool, rank: Rank, chain: seq<Host>)
    requires Represented(d, kept, all, useSubmanId, rank, chain)
    ensures chain != [] && chain[|chain| - 1] in kept
  {}

  lemma ChainTail(d: Host, kept: set<Host>, all: set<Host>, useSubmanId: bool, rank: Rank, chain: seq<Host>)
    requires Represented(d, kept, all, useSubmanId, rank, chain) && |chain| > 1
    ensures PreferredCopy(d, chain[1], all, useSubmanId, rank)
    ensures Represented(chain[1], kept, all, useSubmanId, rank, chain[1..])
  {
    hide PreferredCopy;
    var rest := chain[1..];
    assert PreferredCopy(chain[0], chain[1], all, useSubmanId, rank);
    forall i | 0 <= i < |rest| - 1 ensures PreferredCopy(rest[i], rest[i + 1], all, useSubmanId, rank) {
      assert PreferredCopy(chain[i + 1], chain[i + 2], all, useSubmanId, rank);
    }
  }

  lemma {:induction false} ChainAscends(d: Host, kept: set<Host>, all: set<Host>, useSubmanId: bool, rank: Rank, chain: seq<Host>)
    requires Represented(d, kept, all, useSubmanId, rank, chain) && IsOrder(rank)
    ensures !Below(chain[|chain| - 1].checkIn, d.checkIn)
    ensures if |chain| == 1 then d in kept else rank(d, chain[|chain| - 1])
    decreases |chain|
  {
    if |chain| > 1 {
      ChainTail(d, kept, all, useSubmanId, rank, chain);
      ChainAscends(chain[1], kept, all, useSubmanId, rank, chain[1..]);
    }
  }

  /** Matching never leads out of `part`. */
  predicate ClosedUnderMatching(part: set<Host>, all: set<Host>, useSubmanId: bool) {
    forall x, a, b | x in all && a in part && b in all ::
      a in Matching(x, all, useSubmanId) && b in Matching(x, all, useSubmanId) ==> b in part
  }

  lemma {:induction false} ChainStays(d: Host, part: set<Host>, kept: set<Host>, all: set<Host>, useSubmanId: bool, rank: Rank, chain: seq<Host>)
    requires Represented(d, kept, all, useSubmanId, rank, chain) && d in part
    requires ClosedUnderMatching(part, all, useSubmanId)
    ensures chain[|chain| - 1] in part
    decreases |chain|
  {
    if |chain| > 1 {
      ChainTail(d, kept, all, useSubmanId, rank, chain);
      ChainStays(chain[1], part, kept, all, useSubmanId, rank, chain[1..]);
    }
  }

  /** In particular a host that none outranks, among all hosts or any part of them that
      matching does not leave, is never deleted, and some host with the check-in that
      comes first in the part is left. */
  lemma NewestSurvives(n: Host, part: set<Host>, kept: set<Host>, all: set<Host>, useSubmanId: bool, rank: Rank)
    requires AllRepresented(kept, all, useSubmanId, rank) && IsOrder(rank)
    requires part <= all && ClosedUnderMatching(part, all, useSubmanId)
    ensures n in part && (forall m :: m in part ==> !rank(n, m)) ==> n in kept
    ensures ComesFirst(n, part) ==> exists m :: m in kept && m in part && m.checkIn == n.checkIn
  {
    if n in part {
      var chain :| Represented(n, kept, all, useSubmanId, rank, chain);
      ChainStays(n, part, kept, all, useSubmanId, rank, chain);
      ChainAscends(n, kept, all, useSubmanId, rank, chain);
    }
  }

  /* ---------- hosts that never checked in ---------- */

  /** `l` alone has the latest check-in. */
  predicate IsLatest(l: Host, c: set<Host>) {
    l in c && l.checkIn.Some? && forall m :: m in c && m != l ==> m.checkIn.None? || m.checkIn.value < l.checkIn.value
  }

  predicate AllCheckedIn(c: set<Host>) {
    forall m :: m in c ==> m.checkIn.Some?
  }

  /** The copy with the latest check-in comes first exactly when every copy has one. */
  lemma LatestComesFirstIff(l: Host, c: set<Host>)
    requires IsLatest(l, c)
    ensures ComesFirst(l, c) <==> AllCheckedIn(c)
    ensures forall n :: ComesFirst(n, c) ==> (n == l <==> AllCheckedIn(c))
  {
    if !AllCheckedIn(c) {
      var m :| m in c && m.checkIn.None?;
      assert Below(l.checkIn, m.checkIn);
    }
  }

  lemma NullComesFirst(m: Host, c: set<Host>)
    requires m in c && m.checkIn.None?
    ensures ComesFirst(m, c)
  {
  }

  /** What a finished run leaves. */
  ghost predicate FinishedRun(kept: set<Host>, all: set<Host>, useSubmanId: bool, rank: Rank) {
    kept <= all && AllRepresented(kept, all, useSubmanId, rank) && IsOrder(rank) && AllSettled(kept, useSubmanId)
  }

  /** So the latest of a group of copies outlives a finished run exactly when all of them
      have checked in: one that never did is kept instead. */
  lemma LatestSurvivesIff(l: Host, c: set<Host>, kept: set<Host>, all: set<Host>, useSubmanId: bool, rank: Rank)
    requires IsLatest(l, c) && c <= all
    ensures FinishedRun(kept, all, useSubmanId, rank) && ClosedUnderMatching(c, all, useSubmanId) && Matching(l, all, useSubmanId) == c
            ==> (l in kept <==> AllCheckedIn(c))
  {
    hide Matching, AllRepresented, AllSettled, ClosedUnderMatching, IsOrder, Below;
    LatestComesFirstIff(l, c);
    if FinishedRun(kept, all, useSubmanId, rank) && ClosedUnderMatching(c, all, useSubmanId) && Matching(l, all, useSubmanId) == c {
      if AllCheckedIn(c) {
        NewestSurvives(l, c, kept, all, useSubmanId, rank);
      } else {
        var m :| m in c && m.checkIn.None?;
        NullComesFirst(m, c);
        NewestSurvives(m, c, kept, all, useSubmanId, rank);
        var n :| n in kept && n in c && n.checkIn == m.checkIn;
        if l in kept {
          OneIsKept(l, n, kept, all, useSubmanId);
        }
      }
    }
  }

  /** Of hosts that match each other a finished run leaves one. */
  lemma OneIsKept(a: Host, b: Host, kept: set<Host>, all: set<Host>, useSubmanId: bool)
    requires kept <= all && AllSettled(kept, useSubmanId) && a in kept && b in kept && b in Matching(a, all, useSubmanId)
    ensures a == b
  {
    MatchingShrinks(a, all, kept, useSubmanId);
    assert Settled(a, kept, useSubmanId);
    hide Matching;
    assert b in Matching(a, all, useSubmanId) * kept;
  }

  /** Two copies, one checked in and one not: the job keeps the one that is not. */
  lemma NeverCheckedInIsKept(at: int)
    ensures var a := Host(0, "o", map[InsightsId := Uuid(UUID_ONE)], None);
            var b := Host(1, "o", map[InsightsId := Uuid(UUID_ONE)], Some(at));
            var keeps := map[a := a, b := a];
            && Matching(a, {a, b}, false) == {a, b} == Matching(b, {a, b}, false)
            && ValidKeeps(keeps, {a, b}, {a, b}, false) && Duplicates(keeps, {a, b}, {a, b}, false) == {b}
            && forall first: FirstRow, q :: LatestFirst(first) ==> first(q, {a, b}) == a
  {
    var a := Host(0, "o", map[InsightsId := Uuid(UUID_ONE)], None);
    var b := Host(1, "o", map[InsightsId := Uuid(UUID_ONE)], Some(at));
    var keeps := map[a := a, b := a];
    CopyIff(a, a, {a, b}, false);
    CopyIff(a, b, {a, b}, false);
    CopyIff(b, a, {a, b}, false);
    CopyIff(b, b, {a, b}, false);
    hide Matching, Digits;
    MatchingIsThere(a, {a, b}, false);
    MatchingIsThere(b, {a, b}, false);
    assert Matching(a, {a, b}, false) == {a, b} && Matching(b, {a, b}, false) == {a, b};
    assert Surplus(a, a, {a, b}, false) == {b} && Surplus(b, a, {a, b}, false) == {b};
    forall first: FirstRow, q | LatestFirst(first) ensures first(q, {a, b}) == a {
      assert ComesFirst(first(q, {a, b}), {a, b});
      assert !Below(first(q, {a, b}).checkIn, a.checkIn);
    }
  }

  lemma MatchingIsThere(h: Host, all: set<Host>, useSubmanId: bool)
    requires h in all
    ensures Matching(h, all, useSubmanId) <= all
  {
    MatchingIsFirstStage(h, all, useSubmanId);
  }

  /* ---------- queries that agree on ties ---------- */

  /** The row that the q-th query puts first among the rows it finds. */
  type FirstRow = (nat, set<Host>) -> Host

  /** ORDER BY last_check_in DESC, whatever it does with ties. */
  ghost predicate LatestFirst(first: FirstRow) {
    forall q, found: set<Host> :: found != {} ==> ComesFirst(first(q, found), found)
  }

  /** All queries for copies among `all` put the same host first, by one order. */
  ghost predicate ConsistentTies(first: FirstRow, all: set<Host>, useSubmanId: bool, rank: Rank) {
    && IsOrder(rank)
    && forall q: nat, x, now: set<Host> | x in now && now <= all && Matching(x, now, useSubmanId) != {} ::
         Leads(first(q, Matching(x, now, useSubmanId)), Matching(x, now, useSubmanId), rank)
  }

  /** Hosts that some one host matches differ in their check-in. */
  predicate CopiesDiffer(all: set<Host>, useSubmanId: bool) {
    forall x, a, b | x in all && a in Matching(x, all, useSubmanId) && b in Matching(x, all, useSubmanId) ::
      a.checkIn == b.checkIn ==> a == b
  }

  /** Without ties among copies every query agrees, and check-ins are the order. */
  lemma WithoutTiesConsistent(first: FirstRow, all: set<Host>, useSubmanId: bool)
    requires LatestFirst(first) && CopiesDiffer(all, useSubmanId)
    ensures ConsistentTies(first, all, useSubmanId, CHECK_IN)
  {
    forall q: nat, x, now: set<Host> | x in now && now <= all && Matching(x, now, useSubmanId) != {}
      ensures Leads(first(q, Matching(x, now, useSubmanId)), Matching(x, now, useSubmanId), CHECK_IN)
    {
      MatchingShrinks(x, all, now, useSubmanId);
      hide Matching;
      var found := Matching(x, now, useSubmanId);
      assert ComesFirst(first(q, found), found);
    }
  }

  /** The order by check-in and then by lowest id. */
  const CHECK_IN_THEN_ID: Rank := (a: Host, b: Host) => Below(a.checkIn, b.checkIn) || (a.checkIn == b.checkIn && b.id < a.id)

  /** Queries that break every tie by the lowest id agree, whatever ties there are. */
  lemma TiesByIdConsistent(first: FirstRow, all: set<Host>, useSubmanId: bool)
    requires LatestFirst(first)
    requires forall q, found: set<Host>, m :: m in found && ComesFirst(m, found) && m != first(q, found) ==> first(q, found).id < m.id
    ensures ConsistentTies(first, all, useSubmanId, CHECK_IN_THEN_ID)
  {
    forall q: nat, x, now: set<Host> | x in now && now <= all && Matching(x, now, useSubmanId) != {}
      ensures Leads(first(q, Matching(x, now, useSubmanId)), Matching(x, now, useSubmanId), CHECK_IN_THEN_ID)
    {
      hide Matching;
      var found := Matching(x, now, useSubmanId);
      var n := first(q, found);
      assert ComesFirst(n, found);
      forall m | m in found && m != n ensures CHECK_IN_THEN_ID(m, n) {
        assert !Below(m.checkIn, n.checkIn) ==> m.checkIn == n.checkIn && ComesFirst(m, found);
      }
    }
  }
}
