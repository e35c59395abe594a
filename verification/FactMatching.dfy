/** Matching hosts by canonical facts: the predicate the database evaluates in
    three-valued logic, the one evaluated in memory, and the staged search. */
module FactMatching {
  import opened Common
  import opened SqlLogic

  /* ---------- hosts and facts ---------- */

  datatype Fact = ProviderId | ProviderType | SubscriptionManagerId | InsightsId

  /** A value as the program holds it: the text it was given, or the UUID object that
      loading an insights id from the database makes of it. */
  datatype Value = Text(text: string) | Uuid(text: string)

  /** A stored or ingested host; a column missing from `columns` is NULL. */
  datatype Host = Host(id: nat, org: string, columns: map<Fact, Value>, checkIn: Option<int>)

  function Column(h: Host, f: Fact): Option<Value> {
    if f in h.columns then Some(h.columns[f]) else None
  }

  /** One entry of a fact dictionary, which keeps its insertion order. */
  datatype Item = Item(key: Fact, value: string)

  /** The second component of a compound fact. */
  predicate IsCompound(f: Fact) {
    f == ProviderType
  }

  function Lower(c: char): char {
    if 'A' <= c <= 'F' then c - 'A' + 'a' else c
  }

  function Digit(c: char): string {
    if c in "-{}" then "" else [Lower(c)]
  }

  /** The digits of a UUID, whatever its spelling. */
  function Digits(uuid: string): string {
    if uuid == "" then "" else Digit(uuid[0]) + Digits(uuid[1..])
  }

  /** It does not matter where a text is dashed or braced, nor how its letters are written. */
  lemma {:induction false} DigitsOf(a: string, b: string, c: char)
    ensures Digits(a + b) == Digits(a) + Digits(b)
    ensures c == '-' || c == '{' || c == '}' ==> Digits([c]) == ""
    ensures '0' <= c <= '9' || 'a' <= c <= 'f' ==> Digits([c]) == [c]
    ensures 'A' <= c <= 'F' ==> Digits([c]) == [c + ' ']
  {
    OneDigit(c);
    DigitsJoin(a, b);
  }

  lemma {:induction false} DigitsJoin(a: string, b: string)
    ensures Digits(a + b) == Digits(a) + Digits(b)
  {
    hide Digit;
    if a == "" {
      assert a + b == b;
    } else {
      DigitsJoin(a[1..], b);
      assert (a + b)[0] == a[0] && (a + b)[1..] == a[1..] + b;
    }
  }

  lemma OneDigit(c: char)
    ensures Digits([c]) == if c == '-' || c == '{' || c == '}' then "" else if 'A' <= c <= 'F' then [c + ' '] else [c]
  {
    assert [c][1..] == "";
  }

  /** What the database stores for a text: insights ids are UUIDs there. */
  function Stored(f: Fact, text: string): string {
    if f == InsightsId then Digits(text) else text
  }

  /** The host has the value of the fact, as the database sees it. */
  predicate Has(h: Host, x: Item) {
    Column(h, x.key).Some? && Stored(x.key, Column(h, x.key).value.text) == Stored(x.key, x.value)
  }

  /** The same as the program sees it, to which no UUID object equals a text. */
  predicate HasInMemory(h: Host, x: Item) {
    Column(h, x.key) == Some(Text(x.value))
  }

  /* ---------- the two filters ---------- */

  function IsNotNull(column: Option<Value>): Truth {
    if column.Some? then True else False
  }

  function SqlEquals(f: Fact, column: Option<Value>, value: string): Truth {
    if column.None? then Unknown else if Stored(f, column.value.text) == Stored(f, value) then True else False
  }

  function NoIncorrectSql(h: Host, facts: seq<Item>): Truth {
    SqlNot(SqlOrAll(seq(|facts|, i requires 0 <= i < |facts| =>
      SqlAnd(IsNotNull(Column(h, facts[i].key)), SqlNot(SqlEquals(facts[i].key, Column(h, facts[i].key), facts[i].value))))))
  }

  function NonCompound(facts: seq<Item>): seq<Item> {
    if facts == [] then []
    else (if IsCompound(facts[0].key) then [] else [facts[0]]) + NonCompound(facts[1..])
  }

  function AtLeastOneSql(h: Host, facts: seq<Item>): Truth {
    var included := NonCompound(facts);
    SqlOrAll(seq(|included|, i requires 0 <= i < |included| =>
      SqlEquals(included[i].key, Column(h, included[i].key), included[i].value)))
  }

  predicate NoIncorrectInMemory(h: Host, facts: seq<Item>) {
    forall x :: x in facts ==> Column(h, x.key).None? || HasInMemory(h, x)
  }

  predicate AtLeastOneInMemory(h: Host, facts: seq<Item>) {
    exists x :: x in facts && HasInMemory(h, x)
  }

  /** The row passes the WHERE clause. */
  predicate SelectedSql(h: Host, facts: seq<Item>) {
    SqlAnd(NoIncorrectSql(h, facts), AtLeastOneSql(h, facts)) == True
  }

  predicate SelectedInMemory(h: Host, facts: seq<Item>) {
    NoIncorrectInMemory(h, facts) && AtLeastOneInMemory(h, facts)
  }

  /* ---------- what the database's filter means ---------- */

  /** Where the host has a value it is the given one. */
  predicate NoIncorrect(h: Host, facts: seq<Item>) {
    forall x :: x in facts ==> Column(h, x.key).None? || Has(h, x)
  }

  /** It has one of the values that are no compound components. */
  predicate SharesOne(h: Host, facts: seq<Item>) {
    exists x :: x in facts && !IsCompound(x.key) && Has(h, x)
  }

  lemma NoIncorrectMeans(h: Host, facts: seq<Item>)
    ensures NoIncorrectSql(h, facts) == (if NoIncorrect(h, facts) then True else False)
  {
    hide Stored;
    var cs := seq(|facts|, i requires 0 <= i < |facts| =>
      SqlAnd(IsNotNull(Column(h, facts[i].key)), SqlNot(SqlEquals(facts[i].key, Column(h, facts[i].key), facts[i].value))));
    OrAllTrue(cs);
    if NoIncorrect(h, facts) {
      assert forall i :: 0 <= i < |facts| ==> facts[i] in facts && cs[i] == False;
    } else {
      var x :| x in facts && !(Column(h, x.key).None? || Has(h, x));
      var i :| 0 <= i < |facts| && facts[i] == x;
      assert cs[i] == True;
    }
  }

  lemma {:induction false} NonCompoundElements(facts: seq<Item>)
    ensures forall x :: x in NonCompound(facts) <==> x in facts && !IsCompound(x.key)
  {
    if facts != [] {
      NonCompoundElements(facts[1..]);
      assert facts == [facts[0]] + facts[1..];
    }
  }

  lemma AtLeastOneMeans(h: Host, facts: seq<Item>)
    ensures AtLeastOneSql(h, facts) == True <==> SharesOne(h, facts)
  {
    hide Stored;
    var included := NonCompound(facts);
    var cs := seq(|included|, i requires 0 <= i < |included| =>
      SqlEquals(included[i].key, Column(h, included[i].key), included[i].value));
    OrAllTrue(cs);
    NonCompoundElements(facts);
    if x :| x in facts && !IsCompound(x.key) && Has(h, x) {
      var i :| 0 <= i < |included| && included[i] == x;
      assert cs[i] == True;
    }
    if True in cs {
      var i :| 0 <= i < |cs| && cs[i] == True;
      assert included[i] in included;
    }
  }

  lemma SelectedSqlIff(h: Host, facts: seq<Item>)
    ensures SelectedSql(h, facts) <==> NoIncorrect(h, facts) && SharesOne(h, facts)
  {
    NoIncorrectMeans(h, facts);
    AtLeastOneMeans(h, facts);
  }

  /* ---------- where the two filters agree ---------- */

  /** All the host has in common with the facts is a compound component: it matches
      that one and has no value at all for the others. */
  predicate OnlyCompoundMatches(h: Host, facts: seq<Item>) {
    && (exists x :: x in facts && IsCompound(x.key) && HasInMemory(h, x))
    && (forall x :: x in facts && !IsCompound(x.key) ==> Column(h, x.key).None?)
    && (forall x :: x in facts && IsCompound(x.key) ==> Column(h, x.key).None? || HasInMemory(h, x))
  }

  /** The host has the value, but holds it as a UUID object or in another spelling. */
  predicate HeldOtherwise(h: Host, x: Item) {
    Has(h, x) && !HasInMemory(h, x)
  }

  predicate HoldsOneOtherwise(h: Host, facts: seq<Item>) {
    exists x :: x in facts && HeldOtherwise(h, x)
  }

  lemma InMemoryIsStricter(h: Host, facts: seq<Item>)
    ensures NoIncorrectInMemory(h, facts) ==> NoIncorrect(h, facts) && !HoldsOneOtherwise(h, facts)
    ensures NoIncorrect(h, facts) && !HoldsOneOtherwise(h, facts) ==> NoIncorrectInMemory(h, facts)
  {
    hide Stored;
  }

  /** The database and memory disagree on exactly two kinds of hosts: memory alone takes
      those that match a compound component only, and the database alone takes those it
      selects but that hold one of the values otherwise. */
  lemma FiltersAgreeIff(h: Host, facts: seq<Item>)
    ensures SelectedInMemory(h, facts) && !SelectedSql(h, facts) <==> OnlyCompoundMatches(h, facts)
    ensures SelectedSql(h, facts) && !SelectedInMemory(h, facts) <==> SelectedSql(h, facts) && HoldsOneOtherwise(h, facts)
    ensures (SelectedSql(h, facts) <==> SelectedInMemory(h, facts))
       <==> !OnlyCompoundMatches(h, facts) && !(SelectedSql(h, facts) && HoldsOneOtherwise(h, facts))
  {
    SelectedSqlIff(h, facts);
    InMemoryIsStricter(h, facts);
    hide SelectedSql, Stored;
  }

  predicate Paired(h: Host) {
    ProviderType in h.columns ==> ProviderId in h.columns
  }

  /** So they agree on hosts that hold what they have as it is given, whenever a provider
      type always comes with a provider id. */
  lemma FiltersAgreeWhenPaired(h: Host, facts: seq<Item>)
    requires Paired(h) && !HoldsOneOtherwise(h, facts)
    requires forall x :: x in facts && x.key == ProviderType ==> exists y :: y in facts && y.key == ProviderId
    ensures SelectedSql(h, facts) <==> SelectedInMemory(h, facts)
  {
    FiltersAgreeIff(h, facts);
    hide SelectedSql, SelectedInMemory, Stored;
  }

  /** A host loaded from the database is not found in memory by its own insights id, nor
      is any other that holds it but as the very text that is given. */
  lemma HeldOtherwiseIsMissed(held: Value, given: string)
    requires Digits(held.text) == Digits(given) && held != Text(given)
    ensures var h := Host(0, "org", map[InsightsId := held], None);
            var facts := [Item(InsightsId, given)];
            SelectedSql(h, facts) && !SelectedInMemory(h, facts) && !OnlyCompoundMatches(h, facts)
  {
    hide Digits;
    var h := Host(0, "org", map[InsightsId := held], None);
    var facts := [Item(InsightsId, given)];
    assert facts[0] in facts && Has(h, facts[0]) && HeldOtherwise(h, facts[0]);
    SelectedSqlIff(h, facts);
  }

  /* ---------- extraction ---------- */

  type FactMap = map<Fact, string>

  /** The facts that identify a host, in order of priority. */
  function IdFields(useSubmanId: bool): seq<Fact> {
    if useSubmanId then [SubscriptionManagerId] else [ProviderId, SubscriptionManagerId, InsightsId]
  }

  /** Provider id, with its type when that is given and not empty. */
  function ImmutableFacts(facts: FactMap, useSubmanId: bool): seq<Item> {
    if useSubmanId || ProviderId !in facts then []
    else [Item(ProviderId, facts[ProviderId])]
           + if ProviderType in facts && facts[ProviderType] != "" then [Item(ProviderType, facts[ProviderType])] else []
  }

  function IdFacts(facts: FactMap, useSubmanId: bool): seq<Item> {
    (if SubscriptionManagerId in facts then [Item(SubscriptionManagerId, facts[SubscriptionManagerId])] else [])
    + (if !useSubmanId && InsightsId in facts then [Item(InsightsId, facts[InsightsId])] else [])
  }

  method ExtractFacts(facts: FactMap, useSubmanId: bool) returns (immutable: seq<Item>, idFacts: seq<Item>)
    ensures immutable == ImmutableFacts(facts, useSubmanId)
    ensures idFacts == IdFacts(facts, useSubmanId)
  {
    var fields := IdFields(useSubmanId);
    immutable, idFacts := [], [];
    for i := 0 to |fields|
      invariant i == 0 ==> immutable == [] && idFacts == []
      invariant i >= 1 ==> immutable == ImmutableFacts(facts, useSubmanId)
      invariant i == 1 && !useSubmanId ==> idFacts == []
      invariant i == 2 ==> idFacts == if SubscriptionManagerId in facts
                                      then [Item(SubscriptionManagerId, facts[SubscriptionManagerId])] else []
      invariant i == |fields| ==> idFacts == IdFacts(facts, useSubmanId)
    {
      var key := fields[i];
      if key in facts {
        if key == ProviderId {
          immutable := immutable + [Item(key, facts[key])];
          if ProviderType in facts && facts[ProviderType] != "" {
            immutable := immutable + [Item(ProviderType, facts[ProviderType])];
          }
        } else {
          idFacts := idFacts + [Item(key, facts[key])];
        }
      }
    }
  }

  /* ---------- the staged search ---------- */

  /** One search: the fact it is about, and all the facts it looks at. */
  datatype Stage = Stage(key: Fact, target: seq<Item>)

  function IdStage(facts: FactMap, immutable: seq<Item>, x: Item, ignoreInsights: bool): Stage {
    Stage(x.key, immutable + [x]
      + if ignoreInsights && x.key == InsightsId && SubscriptionManagerId in facts
        then [Item(SubscriptionManagerId, facts[SubscriptionManagerId])] else [])
  }

  function Stages(facts: FactMap, useSubmanId: bool, ignoreInsights: bool): seq<Stage> {
    var immutable := ImmutableFacts(facts, useSubmanId);
    var ids := IdFacts(facts, useSubmanId);
    (if immutable == [] then [] else [Stage(ProviderId, immutable)])
    + seq(|ids|, i requires 0 <= i < |ids| => IdStage(facts, immutable, ids[i], ignoreInsights))
  }

  /** The stages one by one. */
  lemma StageAt(facts: FactMap, useSubmanId: bool, ignoreInsights: bool)
    ensures var immutable := ImmutableFacts(facts, useSubmanId);
            var ids := IdFacts(facts, useSubmanId);
            var stages := Stages(facts, useSubmanId, ignoreInsights);
            var n := if immutable == [] then 0 else 1;
            && |stages| == n + |ids|
            && (n == 1 ==> stages[0] == Stage(ProviderId, immutable))
            && (forall i :: 0 <= i < |ids| ==> stages[n + i] == IdStage(facts, immutable, ids[i], ignoreInsights))
            && (forall s :: s in stages ==>
                  || (n == 1 && s == Stage(ProviderId, immutable))
                  || exists i :: 0 <= i < |ids| && s == IdStage(facts, immutable, ids[i], ignoreInsights))
  {
    var ids := IdFacts(facts, useSubmanId);
    var stages := Stages(facts, useSubmanId, ignoreInsights);
    var n := |stages| - |ids|;
    hide ImmutableFacts, IdFacts, IdStage;
    forall s | s in stages
      ensures (n == 1 && s == stages[0])
              || exists i :: 0 <= i < |ids| && s == IdStage(facts, ImmutableFacts(facts, useSubmanId), ids[i], ignoreInsights)
    {
      var k :| 0 <= k < |stages| && stages[k] == s;
      if k >= n {
        assert s == IdStage(facts, ImmutableFacts(facts, useSubmanId), ids[k - n], ignoreInsights);
      }
    }
  }

  /** Where to look: a non-empty list in memory, or the rows of the query (the
      organisation's hosts that are not culled, last modified first). */
  datatype Source = InMemory(hosts: seq<Host>) | InDb(rows: seq<Host>)

  predicate Candidate(h: Host, org: string, target: seq<Item>, source: Source) {
    h.org == org && if source.InMemory? then SelectedInMemory(h, target) else SelectedSql(h, target)
  }

  function Pool(source: Source): seq<Host> {
    if source.InMemory? then source.hosts else source.rows
  }

  predicate HasCandidate(org: string, target: seq<Item>, source: Source) {
    exists h :: h in Pool(source) && Candidate(h, org, target, source)
  }

  /** The first host of the pool that satisfies the target. */
  predicate IsFirst(h: Host, org: string, target: seq<Item>, source: Source) {
    exists i :: 0 <= i < |Pool(source)| && Pool(source)[i] == h && Candidate(h, org, target, source)
      && forall j :: 0 <= j < i ==> !Candidate(Pool(source)[j], org, target, source)
  }

  datatype SearchError = UnpairedCompoundFact

  predicate Unpaired(target: seq<Item>) {
    (exists x :: x in target && x.key == ProviderId) && !(exists x :: x in target && x.key == ProviderType)
  }

  method FindByFacts(org: string, target: seq<Item>, source: Source) returns (r: Result<Option<Host>, SearchError>)
    ensures r.Err? <==> source.InDb? && Unpaired(target)
    ensures r.Ok? && r.value.Some? ==> IsFirst(r.value.value, org, target, source)
    ensures r.Ok? && r.value.None? ==> !HasCandidate(org, target, source)
  {
    if source.InDb? && Unpaired(target) {
      return Err(UnpairedCompoundFact);
    }
    var pool := Pool(source);
    for i := 0 to |pool|
      invariant forall j :: 0 <= j < i ==> !Candidate(pool[j], org, target, source)
    {
      if Candidate(pool[i], org, target, source) {
        return Ok(Some(pool[i]));
      }
    }
    r := Ok(None);
  }

  /** A host found at stage k: the first that satisfies it, when no host satisfies
      any earlier stage. */
  predicate FoundAt(h: Host, k: nat, org: string, stages: seq<Stage>, source: Source) {
    && k < |stages| && IsFirst(h, org, stages[k].target, source)
    && forall j :: 0 <= j < k ==> !HasCandidate(org, stages[j].target, source)
  }

  /* ---------- the search on the columns ---------- */

  /** A search: whose host, by what facts and under which settings. */
  datatype Query = Query(org: string, facts: FactMap, useSubmanId: bool, ignoreInsights: bool)

  function StagesOf(q: Query): seq<Stage> {
    Stages(q.facts, q.useSubmanId, q.ignoreInsights)
  }

  /** The facts by which hosts are searched for. */
  predicate SearchesBy(q: Query, f: Fact) {
    f in q.facts && (f == SubscriptionManagerId || (!q.useSubmanId && (f == ProviderId || f == InsightsId)))
  }

  /** The search by f compares the column g. */
  predicate Compares(q: Query, f: Fact, g: Fact) {
    g in q.facts &&
    (|| g == f
     || (g == ProviderId && !q.useSubmanId)
     || (g == ProviderType && !q.useSubmanId && ProviderId in q.facts && q.facts[ProviderType] != "")
     || (g == SubscriptionManagerId && f == InsightsId && q.ignoreInsights))
  }

  /** The host holds the value: in memory that very text, in the database the same text
      or, of an insights id, the same UUID. */
  predicate Holds(h: Host, f: Fact, value: string, inMemory: bool) {
    f in h.columns &&
    if inMemory then h.columns[f] == Text(value)
    else if f == InsightsId then Digits(h.columns[f].text) == Digits(value)
    else h.columns[f].text == value
  }

  /** A host of the organisation that the search by f should find: it has no other value
      in any column compared and the given one in some, where the database does not take
      a provider type for enough. */
  predicate Fits(h: Host, f: Fact, q: Query, inMemory: bool) {
    && h.org == q.org
    && SearchesBy(q, f)
    && (forall g :: Compares(q, f, g) && g in h.columns ==> Holds(h, g, q.facts[g], inMemory))
    && (exists g :: Compares(q, f, g) && Holds(h, g, q.facts[g], inMemory) && (g == ProviderType ==> inMemory))
  }

  predicate SomeFits(f: Fact, q: Query, source: Source) {
    exists h :: h in Pool(source) && Fits(h, f, q, source.InMemory?)
  }

  /** The first of the pool that fits. */
  predicate FirstFit(h: Host, f: Fact, q: Query, source: Source) {
    exists i :: 0 <= i < |Pool(source)| && Pool(source)[i] == h && Fits(h, f, q, source.InMemory?)
      && forall j :: 0 <= j < i ==> !Fits(Pool(source)[j], f, q, source.InMemory?)
  }

  /** The provider id is searched for first, then the subscription manager id. */
  predicate SearchedBefore(g: Fact, f: Fact) {
    (g == ProviderId && f != ProviderId) || (g == SubscriptionManagerId && f == InsightsId)
  }

  /** The host to be found: the first that fits the first fact that any host fits. */
  predicate BestFit(h: Host, f: Fact, q: Query, source: Source) {
    FirstFit(h, f, q, source) && forall g :: SearchedBefore(g, f) ==> !SomeFits(g, q, source)
  }

  lemma FactsTaken(facts: FactMap, useSubmanId: bool)
    ensures forall x :: x in ImmutableFacts(facts, useSubmanId) <==>
              && x.key in facts && x.value == facts[x.key] && !useSubmanId && ProviderId in facts
              && (x.key == ProviderId || (x.key == ProviderType && facts[ProviderType] != ""))
    ensures forall x :: x in IdFacts(facts, useSubmanId) <==>
              && x.key in facts && x.value == facts[x.key]
              && (x.key == SubscriptionManagerId || (x.key == InsightsId && !useSubmanId))
  {
    var immutable := ImmutableFacts(facts, useSubmanId);
    if !useSubmanId && ProviderId in facts {
      assert immutable[0] in immutable && (|immutable| == 2 ==> immutable[1] in immutable);
    }
  }

  /** A stage compares the columns it should, with the given values. */
  lemma TargetIff(q: Query, s: Stage)
    requires s in StagesOf(q)
    ensures SearchesBy(q, s.key)
    ensures forall x :: x in s.target ==> Compares(q, s.key, x.key) && x.value == q.facts[x.key]
    ensures forall g :: Compares(q, s.key, g) ==> Item(g, q.facts[g]) in s.target
  {
    var immutable, ids := ImmutableFacts(q.facts, q.useSubmanId), IdFacts(q.facts, q.useSubmanId);
    StageAt(q.facts, q.useSubmanId, q.ignoreInsights);
    FactsTaken(q.facts, q.useSubmanId);
    hide Stages, ImmutableFacts, IdFacts;
    if s == Stage(ProviderId, immutable) && immutable != [] {
      assert immutable[0] in immutable;
    } else {
      var i :| 0 <= i < |ids| && s == IdStage(q.facts, immutable, ids[i], q.ignoreInsights);
      assert ids[i] in ids;
      IdTarget(q, immutable, ids[i]);
      hide IdStage;
    }
  }

  lemma IdTarget(q: Query, immutable: seq<Item>, x: Item)
    ensures forall y :: y in IdStage(q.facts, immutable, x, q.ignoreInsights).target <==>
              || y in immutable || y == x
              || (&& y.key == SubscriptionManagerId && y.key in q.facts && y.value == q.facts[y.key]
                  && q.ignoreInsights && x.key == InsightsId)
  {
  }

  lemma StageKeys(q: Query)
    ensures var stages, ids := StagesOf(q), IdFacts(q.facts, q.useSubmanId);
            var n := if ImmutableFacts(q.facts, q.useSubmanId) == [] then 0 else 1;
            && |stages| == n + |ids|
            && (n == 1 ==> stages[0].key == ProviderId)
            && forall k :: n <= k < |stages| ==> stages[k].key == ids[k - n].key
  {
    hide ImmutableFacts, IdFacts;
  }

  lemma IdOrder(q: Query)
    ensures SearchesBy(q, ProviderId) ==> ImmutableFacts(q.facts, q.useSubmanId) != []
    ensures var ids := IdFacts(q.facts, q.useSubmanId);
            && |ids| <= 2
            && (|ids| == 2 ==> ids[0].key == SubscriptionManagerId && ids[1].key == InsightsId)
            && (|ids| == 1 ==> ids[0].key == SubscriptionManagerId || ids[0].key == InsightsId)
            && (SearchesBy(q, SubscriptionManagerId) ==> |ids| > 0 && ids[0].key == SubscriptionManagerId)
            && (SearchesBy(q, InsightsId) ==> |ids| > 0 && ids[|ids| - 1].key == InsightsId)
  {
  }

  lemma SearchedFor(q: Query, f: Fact)
    requires SearchesBy(q, f)
    ensures f == ProviderId || f == SubscriptionManagerId || f == InsightsId
  {
  }

  /** There is one stage for every fact searched by, in their order. */
  lemma StagePerFact(q: Query)
    ensures forall f :: SearchesBy(q, f) ==> exists k :: 0 <= k < |StagesOf(q)| && StagesOf(q)[k].key == f
    ensures forall j, k :: 0 <= j < k < |StagesOf(q)| ==> SearchedBefore(StagesOf(q)[j].key, StagesOf(q)[k].key)
  {
    var stages := StagesOf(q);
    var n := if ImmutableFacts(q.facts, q.useSubmanId) == [] then 0 else 1;
    var ids := IdFacts(q.facts, q.useSubmanId);
    StageKeys(q);
    IdOrder(q);
    hide StagesOf, ImmutableFacts, IdFacts, SearchesBy;
    forall f | SearchesBy(q, f) ensures exists k :: 0 <= k < |stages| && stages[k].key == f {
      SearchedFor(q, f);
      var k := if f == ProviderId then 0 else if f == SubscriptionManagerId then n else n + |ids| - 1;
      assert stages[k].key == f;
    }
  }

  lemma CandidateFits(h: Host, q: Query, s: Stage, source: Source)
    requires s in StagesOf(q)
    ensures Candidate(h, q.org, s.target, source) <==> Fits(h, s.key, q, source.InMemory?)
  {
    TargetIff(q, s);
    SelectedSqlIff(h, s.target);
    hide StagesOf, Digits, Compares, SearchesBy, SelectedSql;
    if source.InMemory? {
      assert forall x :: HasInMemory(h, x) <==> Holds(h, x.key, x.value, true);
      hide HasInMemory, Holds;
    } else {
      assert forall x :: Has(h, x) <==> Holds(h, x.key, x.value, false);
      hide Has, Holds;
    }
  }

  /** A host satisfies a stage exactly if it fits the fact of that stage. */
  lemma StageFits(q: Query, s: Stage, source: Source)
    requires s in StagesOf(q)
    ensures forall h :: Candidate(h, q.org, s.target, source) <==> Fits(h, s.key, q, source.InMemory?)
    ensures HasCandidate(q.org, s.target, source) <==> SomeFits(s.key, q, source)
    ensures forall h :: IsFirst(h, q.org, s.target, source) <==> FirstFit(h, s.key, q, source)
  {
    forall h ensures Candidate(h, q.org, s.target, source) <==> Fits(h, s.key, q, source.InMemory?) {
      CandidateFits(h, q, s, source);
    }
    hide Candidate, Fits, StagesOf;
  }

  /** The staged search finds the best fit, a host of its organisation. */
  lemma FoundIsBestFit(h: Host, k: nat, q: Query, source: Source)
    requires FoundAt(h, k, q.org, StagesOf(q), source)
    ensures h in Pool(source) && h.org == q.org
    ensures BestFit(h, StagesOf(q)[k].key, q, source)
  {
    var stages := StagesOf(q);
    hide Stages, HasCandidate, IsFirst, SomeFits, FirstFit, Fits;
    StagePerFact(q);
    StageFits(q, stages[k], source);
    FirstFitIsOurs(h, stages[k].key, q, source);
    forall g | SearchedBefore(g, stages[k].key) ensures !SomeFits(g, q, source) {
      if SearchesBy(q, g) {
        var j :| 0 <= j < |stages| && stages[j].key == g;
        StageFits(q, stages[j], source);
      } else {
        FitsOnlySearched(g, q, source);
      }
    }
  }

  lemma FirstFitIsOurs(h: Host, f: Fact, q: Query, source: Source)
    requires FirstFit(h, f, q, source)
    ensures h in Pool(source) && h.org == q.org
  {
  }

  lemma FitsOnlySearched(f: Fact, q: Query, source: Source)
    requires !SearchesBy(q, f)
    ensures !SomeFits(f, q, source)
  {
  }

  lemma NothingFits(q: Query, source: Source)
    requires forall s :: s in StagesOf(q) ==> !HasCandidate(q.org, s.target, source)
    ensures forall f :: !SomeFits(f, q, source)
  {
    hide Stages, HasCandidate, SomeFits;
    StagePerFact(q);
    forall f ensures !SomeFits(f, q, source) {
      if SearchesBy(q, f) {
        var k :| 0 <= k < |StagesOf(q)| && StagesOf(q)[k].key == f;
        StageFits(q, StagesOf(q)[k], source);
      } else {
        FitsOnlySearched(f, q, source);
      }
    }
  }

  /* ---------- hosts of other organisations ---------- */

  /** The hosts of one organisation. */
  function HostsOf(hosts: seq<Host>, org: string): seq<Host> {
    if hosts == [] then []
    else (if hosts[0].org == org then [hosts[0]] else []) + HostsOf(hosts[1..], org)
  }

  function Within(source: Source, org: string): Source {
    if source.InMemory? then InMemory(HostsOf(source.hosts, org)) else InDb(HostsOf(source.rows, org))
  }

  lemma {:induction false} HostsOfElements(hosts: seq<Host>, org: string)
    ensures forall h :: h in HostsOf(hosts, org) <==> h in hosts && h.org == org
  {
    if hosts != [] {
      HostsOfElements(hosts[1..], org);
      assert hosts == [hosts[0]] + hosts[1..];
    }
  }

  /** `h` is the first host with the property. */
  predicate First(h: Host, hosts: seq<Host>, p: Host -> bool) {
    hosts != [] && if p(hosts[0]) then h == hosts[0] else First(h, hosts[1..], p)
  }

  lemma {:induction false} FirstIff(h: Host, hosts: seq<Host>, p: Host -> bool)
    ensures First(h, hosts, p)
       <==> exists i :: 0 <= i < |hosts| && hosts[i] == h && p(h) && forall j :: 0 <= j < i ==> !p(hosts[j])
  {
    if hosts != [] {
      var rest := hosts[1..];
      FirstIff(h, rest, p);
      if i :| 0 <= i < |hosts| && hosts[i] == h && p(h) && forall j :: 0 <= j < i ==> !p(hosts[j]) {
        if i > 0 {
          assert rest[i - 1] == h && forall j :: 0 <= j < i - 1 ==> rest[j] == hosts[j + 1];
        }
      }
      if i :| 0 <= i < |rest| && rest[i] == h && p(h) && forall j :: 0 <= j < i ==> !p(rest[j]) {
        if !p(hosts[0]) {
          assert hosts[i + 1] == h && forall j :: 0 < j < i + 1 ==> hosts[j] == rest[j - 1];
        }
      }
    }
  }

  lemma {:induction false} FirstWithin(h: Host, hosts: seq<Host>, org: string, p: Host -> bool)
    requires forall g :: p(g) ==> g.org == org
    ensures First(h, hosts, p) <==> First(h, HostsOf(hosts, org), p)
  {
    if hosts != [] {
      FirstWithin(h, hosts[1..], org, p);
      if hosts[0].org == org {
        assert HostsOf(hosts, org) == [hosts[0]] + HostsOf(hosts[1..], org);
      } else {
        assert HostsOf(hosts, org) == HostsOf(hosts[1..], org);
      }
    }
  }

  lemma FirstFitWithin(h: Host, f: Fact, q: Query, source: Source)
    ensures FirstFit(h, f, q, source) <==> FirstFit(h, f, q, Within(source, q.org))
  {
    var p := g => Fits(g, f, q, source.InMemory?);
    var all := Pool(source);
    FitsOurs(f, q, source.InMemory?);
    hide Fits, HostsOf, First;
    FirstIff(h, all, p);
    FirstIff(h, HostsOf(all, q.org), p);
    FirstWithin(h, all, q.org, p);
    assert Pool(Within(source, q.org)) == HostsOf(all, q.org);
    hide Within;
  }

  lemma FitsOurs(f: Fact, q: Query, inMemory: bool)
    ensures forall h :: Fits(h, f, q, inMemory) ==> h.org == q.org
  {
  }

  lemma SomeFitsWithin(f: Fact, q: Query, source: Source)
    ensures SomeFits(f, q, source) <==> SomeFits(f, q, Within(source, q.org))
  {
    HostsOfElements(Pool(source), q.org);
    FitsOurs(f, q, source.InMemory?);
    hide Fits, HostsOf;
    assert Pool(Within(source, q.org)) == HostsOf(Pool(source), q.org);
    assert forall h :: h in Pool(Within(source, q.org)) <==> h in Pool(source) && h.org == q.org;
  }

  /** They change no answer. */
  lemma OthersDoNotMatter(h: Host, f: Fact, q: Query, source: Source)
    ensures BestFit(h, f, q, source) <==> BestFit(h, f, q, Within(source, q.org))
    ensures SomeFits(f, q, source) <==> SomeFits(f, q, Within(source, q.org))
  {
    FirstFitWithin(h, f, q, source);
    forall g ensures SomeFits(g, q, source) <==> SomeFits(g, q, Within(source, q.org)) {
      SomeFitsWithin(g, q, source);
    }
    hide FirstFit, SomeFits, Within;
  }

  /** The provider id was given without its type, which only the database search
      rejects. */
  predicate MissingType(facts: FactMap, useSubmanId: bool) {
    !useSubmanId && ProviderId in facts && (ProviderType !in facts || facts[ProviderType] == "")
  }

  method FindExistingHost(org: string, facts: FactMap, useSubmanId: bool, ignoreInsights: bool, source: Source)
    returns (r: Result<Option<Host>, SearchError>)
    ensures r.Err? <==> source.InDb? && MissingType(facts, useSubmanId)
    ensures r.Ok? && r.value.Some? ==>
              exists k: nat :: FoundAt(r.value.value, k, org, Stages(facts, useSubmanId, ignoreInsights), source)
    ensures r.Ok? && r.value.None? ==>
              forall s :: s in Stages(facts, useSubmanId, ignoreInsights) ==> !HasCandidate(org, s.target, source)
    // on the columns: it is the organisation's first host that fits the first fact any fits
    ensures r.Ok? && r.value.Some? ==> r.value.value in Pool(source) && r.value.value.org == org
    ensures r.Ok? && r.value.Some? ==>
              exists f :: BestFit(r.value.value, f, Query(org, facts, useSubmanId, ignoreInsights), source)
    ensures r.Ok? && r.value.None? ==> forall f :: !SomeFits(f, Query(org, facts, useSubmanId, ignoreInsights), source)
  {
    hide Stages, ImmutableFacts, IdFacts, Unpaired, IsFirst, HasCandidate, IdStage, MissingType, SomeFits, Fits, BestFit;
    var immutable, ids := ExtractFacts(facts, useSubmanId);
    StageAt(facts, useSubmanId, ignoreInsights);
    ghost var stages := Stages(facts, useSubmanId, ignoreInsights);
    ghost var q := Query(org, facts, useSubmanId, ignoreInsights);
    ghost var n := if immutable == [] then 0 else 1;
    UnpairedOnlyAtStart(facts, useSubmanId, ignoreInsights);
    if immutable != [] {
      assert stages[0] == Stage(ProviderId, immutable);
      r := FindByFacts(org, immutable, source);
      if r.Err? || r.value.Some? {
        if r.Ok? {
          FoundIsBestFit(r.value.value, 0, q, source);
        }
        return;
      }
    }
    for i := 0 to |ids|
      invariant forall j :: 0 <= j < n + i ==> !HasCandidate(org, stages[j].target, source)
    {
      var stage := IdStage(facts, immutable, ids[i], ignoreInsights);
      assert stages[n + i] == stage;
      r := FindByFacts(org, stage.target, source);
      if r.Err? || r.value.Some? {
        if r.Ok? {
          FoundIsBestFit(r.value.value, n + i, q, source);
        }
        return;
      }
    }
    NothingFits(q, source);
    r := Ok(None);
  }

  /** Every stage carries the provider id, so the pairing check fails at the first
      stage or never. */
  lemma UnpairedOnlyAtStart(facts: FactMap, useSubmanId: bool, ignoreInsights: bool)
    ensures forall s :: s in Stages(facts, useSubmanId, ignoreInsights) ==>
              (Unpaired(s.target) <==> MissingType(facts, useSubmanId))
    ensures MissingType(facts, useSubmanId) ==> ImmutableFacts(facts, useSubmanId) != []
  {
    var immutable := ImmutableFacts(facts, useSubmanId);
    ImmutableUnpaired(facts, useSubmanId);
    StageAt(facts, useSubmanId, ignoreInsights);
    IdFactKeys(facts, useSubmanId);
    hide Stages, ImmutableFacts, IdFacts;
    forall s | s in Stages(facts, useSubmanId, ignoreInsights)
      ensures Unpaired(s.target) <==> MissingType(facts, useSubmanId)
    {
      assert forall x :: x in immutable ==> x in s.target;
      assert forall x :: x in s.target ==> x in immutable || (x.key != ProviderId && x.key != ProviderType);
    }
  }

  lemma ImmutableUnpaired(facts: FactMap, useSubmanId: bool)
    ensures Unpaired(ImmutableFacts(facts, useSubmanId)) <==> MissingType(facts, useSubmanId)
    ensures MissingType(facts, useSubmanId) ==> ImmutableFacts(facts, useSubmanId) != []
  {
    if !useSubmanId && ProviderId in facts {
      var immutable := ImmutableFacts(facts, useSubmanId);
      assert Item(ProviderId, facts[ProviderId]) in immutable;
      assert !MissingType(facts, useSubmanId) ==> Item(ProviderType, facts[ProviderType]) in immutable;
    }
  }

  lemma IdFactKeys(facts: FactMap, useSubmanId: bool)
    ensures forall x :: x in IdFacts(facts, useSubmanId) ==>
              (x.key == SubscriptionManagerId || x.key == InsightsId) && x.key in facts && x.value == facts[x.key]
    ensures forall x :: x in ImmutableFacts(facts, useSubmanId) ==> x.key in facts && x.value == facts[x.key]
  {}

  /* ---------- what a match means ---------- */

  /** The value, where the host has one, is the given one. */
  predicate Consistent(h: Host, facts: FactMap, f: Fact) {
    f in facts ==> Column(h, f).None? || Has(h, Item(f, facts[f]))
  }

  /** A candidate in either sense contradicts none of the facts, and (in memory unless
      a provider type is all it matches) has one of the non-compound ones. */
  lemma CandidateMeaning(h: Host, org: string, target: seq<Item>, source: Source)
    requires Candidate(h, org, target, source)
    ensures NoIncorrect(h, target)
    ensures SharesOne(h, target) <==> source.InDb? || !OnlyCompoundMatches(h, target)
  {
    FiltersAgreeIff(h, target);
    SelectedSqlIff(h, target);
    InMemoryIsStricter(h, target);
    hide SelectedSql, Stored;
  }

  lemma TargetsPaired(facts: FactMap, useSubmanId: bool, ignoreInsights: bool, s: Stage)
    requires s in Stages(facts, useSubmanId, ignoreInsights)
    ensures forall x :: x in s.target && x.key == ProviderType ==> exists y :: y in s.target && y.key == ProviderId
    ensures forall x :: x in s.target ==> x.key in facts && x.value == facts[x.key]
    ensures forall x :: x in ImmutableFacts(facts, useSubmanId) ==> x in s.target
  {
    var immutable := ImmutableFacts(facts, useSubmanId);
    assert immutable != [] ==> immutable[0].key == ProviderId;
    StageAt(facts, useSubmanId, ignoreInsights);
    IdFactKeys(facts, useSubmanId);
    hide Stages, ImmutableFacts, IdFacts, IsCompound;
    assert forall x :: x in immutable ==> x in s.target;
    if immutable != [] {
      assert immutable[0] in immutable;
    }
  }

  /** A match means agreement on the fact of its stage, since what looks like a match on
      an earlier fact would have been found at the earlier stage; in memory exactly
      unless a provider type is all that matches. */
  lemma MatchedOnItsFactIff(h: Host, k: nat, org: string, facts: FactMap, useSubmanId: bool, ignoreInsights: bool, source: Source)
    requires FoundAt(h, k, org, Stages(facts, useSubmanId, ignoreInsights), source)
    ensures var s := Stages(facts, useSubmanId, ignoreInsights)[k];
            s.key in facts
            && (Has(h, Item(s.key, facts[s.key])) <==> source.InDb? || !OnlyCompoundMatches(h, s.target))
  {
    var stages := Stages(facts, useSubmanId, ignoreInsights);
    var s := stages[k];
    assert s in stages;
    TargetsPaired(facts, useSubmanId, ignoreInsights, s);
    KeyInTarget(facts, useSubmanId, ignoreInsights, k);
    CandidateMeaning(h, org, s.target, source);
    hide SelectedSql, SelectedInMemory, OnlyCompoundMatches, Stored;
    if x :| x in s.target && !IsCompound(x.key) && Has(h, x) {
      if x.key != s.key {
        // x belongs to an earlier stage, at which h would have been a candidate
        var j := EarlierStage(facts, useSubmanId, ignoreInsights, k, x);
        CandidateForFewer(h, org, s.target, stages[j].target, source, x);
      }
    }
  }

  /** Paired hosts are matched on the fact of their stage wherever they are found. */
  lemma PairedIsMatchedOnItsFact(h: Host, k: nat, org: string, facts: FactMap, useSubmanId: bool, ignoreInsights: bool, source: Source)
    requires FoundAt(h, k, org, Stages(facts, useSubmanId, ignoreInsights), source) && Paired(h)
    ensures var key := Stages(facts, useSubmanId, ignoreInsights)[k].key;
            key in facts && Has(h, Item(key, facts[key]))
  {
    MatchedOnItsFactIff(h, k, org, facts, useSubmanId, ignoreInsights, source);
    TargetsPaired(facts, useSubmanId, ignoreInsights, Stages(facts, useSubmanId, ignoreInsights)[k]);
  }

  lemma KeyInTarget(facts: FactMap, useSubmanId: bool, ignoreInsights: bool, k: nat)
    requires k < |Stages(facts, useSubmanId, ignoreInsights)|
    ensures var s := Stages(facts, useSubmanId, ignoreInsights)[k];
            !IsCompound(s.key) && exists x :: x in s.target && x.key == s.key
  {
    var s := Stages(facts, useSubmanId, ignoreInsights)[k];
    var immutable := ImmutableFacts(facts, useSubmanId);
    StageAt(facts, useSubmanId, ignoreInsights);
    IdFactKeys(facts, useSubmanId);
    hide Stages;
    if s == Stage(ProviderId, immutable) {
      assert immutable[0] in s.target;
    } else {
      assert s.target[|immutable|] in s.target;
    }
  }

  /** The stage of a fact that a later stage merely carries along. */
  lemma EarlierStage(facts: FactMap, useSubmanId: bool, ignoreInsights: bool, k: nat, x: Item) returns (j: nat)
    requires var stages := Stages(facts, useSubmanId, ignoreInsights);
             k < |stages| && x in stages[k].target && !IsCompound(x.key) && x.key != stages[k].key
    ensures var stages := Stages(facts, useSubmanId, ignoreInsights);
            j < k && x in stages[j].target && forall y :: y in stages[j].target ==> y in stages[k].target
  {
    var stages := Stages(facts, useSubmanId, ignoreInsights);
    var immutable := ImmutableFacts(facts, useSubmanId);
    j := if x.key == ProviderId then 0 else if immutable == [] then 0 else 1;
    assert forall y :: y in immutable ==> y in stages[k].target;
    if x.key == ProviderId {
      assert immutable[0] == x;
    }
  }

  lemma CandidateForFewer(h: Host, org: string, target: seq<Item>, fewer: seq<Item>, source: Source, x: Item)
    requires h in Pool(source) && Candidate(h, org, target, source)
    requires (forall y :: y in fewer ==> y in target) && x in fewer && !IsCompound(x.key) && Has(h, x)
    ensures HasCandidate(org, fewer, source)
  {
    SelectedSqlIff(h, target);
    SelectedSqlIff(h, fewer);
    hide SelectedSql, Stored;
    assert NoIncorrect(h, target) ==> NoIncorrect(h, fewer);
    assert NoIncorrectInMemory(h, target) ==> NoIncorrectInMemory(h, fewer) && HasInMemory(h, x);
    assert Candidate(h, org, fewer, source);
  }

  /** A match contradicts neither the provider id nor its type, unless the service
      identifies hosts by subscription manager id alone.  With the insights-id
      flag it does not contradict the subscription manager id either, unless it
      was found by its provider id. */
  lemma MatchContradictsNothing(h: Host, k: nat, org: string, facts: FactMap, useSubmanId: bool, ignoreInsights: bool, source: Source)
    requires FoundAt(h, k, org, Stages(facts, useSubmanId, ignoreInsights), source)
    ensures !useSubmanId && ProviderId in facts ==> Consistent(h, facts, ProviderId)
    ensures !useSubmanId && ProviderId in facts && !MissingType(facts, useSubmanId) ==> Consistent(h, facts, ProviderType)
    ensures ignoreInsights && Stages(facts, useSubmanId, ignoreInsights)[k].key != ProviderId
            ==> Consistent(h, facts, SubscriptionManagerId)
  {
    var q := Query(org, facts, useSubmanId, ignoreInsights);
    var s := StagesOf(q)[k];
    assert s in StagesOf(q);
    TargetIff(q, s);
    CandidateMeaning(h, org, s.target, source);
    hide Stages, Stored, Candidate;
    forall f | f in facts && Compares(q, s.key, f) ensures Consistent(h, facts, f) {
      assert Item(f, facts[f]) in s.target;
    }
  }

  /* ---------- which facts a match can contradict, by the input alone ---------- */

  /** No match for these facts, wherever it is looked for, contradicts the fact; or no
      match whose provider type comes with a provider id. */
  ghost predicate Protects(facts: FactMap, useSubmanId: bool, ignoreInsights: bool, f: Fact, pairedOnly: bool) {
    forall h, k: nat, org, source |
      FoundAt(h, k, org, Stages(facts, useSubmanId, ignoreInsights), source) && (pairedOnly ==> Paired(h)) ::
      Consistent(h, facts, f)
  }

  /** The facts hold nothing to search by. */
  predicate NothingToSearch(facts: FactMap, useSubmanId: bool) {
    SubscriptionManagerId !in facts && (useSubmanId || (ProviderId !in facts && InsightsId !in facts))
  }

  /** Read off the input: either there is nothing to contradict or to find, or every
      search that could find a host carries the fact along. */
  predicate CarriedAlong(facts: FactMap, useSubmanId: bool, ignoreInsights: bool, f: Fact) {
    || f !in facts
    || NothingToSearch(facts, useSubmanId)
    || match f
       case ProviderId => !useSubmanId
       case ProviderType => !useSubmanId && ProviderId in facts && facts[ProviderType] != ""
       case SubscriptionManagerId => useSubmanId || (ProviderId !in facts && (ignoreInsights || InsightsId !in facts))
       case InsightsId => !useSubmanId && ProviderId !in facts && SubscriptionManagerId !in facts
  }

  lemma NoStageIff(facts: FactMap, useSubmanId: bool, ignoreInsights: bool)
    ensures Stages(facts, useSubmanId, ignoreInsights) == [] <==> NothingToSearch(facts, useSubmanId)
  {
  }

  /** A fact that is carried along is a fact of every target. */
  lemma CarriedInTargets(facts: FactMap, useSubmanId: bool, ignoreInsights: bool, f: Fact)
    requires CarriedAlong(facts, useSubmanId, ignoreInsights, f) && f in facts
    ensures forall s :: s in Stages(facts, useSubmanId, ignoreInsights) ==> Item(f, facts[f]) in s.target
  {
    NoStageIff(facts, useSubmanId, ignoreInsights);
    var immutable := ImmutableFacts(facts, useSubmanId);
    StageAt(facts, useSubmanId, ignoreInsights);
    hide Stages;
    forall s | s in Stages(facts, useSubmanId, ignoreInsights) ensures Item(f, facts[f]) in s.target {
      TargetsPaired(facts, useSubmanId, ignoreInsights, s);
      if f == ProviderId {
        assert immutable[0] == Item(f, facts[f]) && immutable[0] in immutable;
      } else if f == ProviderType {
        assert immutable[1] == Item(f, facts[f]) && immutable[1] in immutable;
      }
    }
  }

  /** Another value than the given one. */
  function Another(f: Fact, value: string): string {
    if f != InsightsId then value + "x"
    else if Digits(value) == Digits(UUID_ONE) then UUID_TWO
    else UUID_ONE
  }

  const UUID_START := "00000000-0000-0000-0000-00000000000"
  const UUID_ONE := UUID_START + "1"
  const UUID_TWO := UUID_START + "2"

  lemma LastDigit(s: string, c: char)
    requires c !in "-{}"
    ensures Digits(s + [c]) == Digits(s) + [Lower(c)]
  {
    if s == "" {
      assert s + [c] == [c] && [c][1..] == "";
    } else {
      LastDigit(s[1..], c);
      assert (s + [c])[1..] == s[1..] + [c];
    }
  }

  lemma DigitsDiffer(start: string, c: char, d: char)
    requires c !in "-{}" && d !in "-{}" && Lower(c) != Lower(d)
    ensures Digits(start + [c]) != Digits(start + [d])
  {
    LastDigit(start, c);
    LastDigit(start, d);
    hide Digits;
    var s := Digits(start);
    assert (s + [Lower(c)])[|s|] != (s + [Lower(d)])[|s|];
  }

  lemma AnotherIsOther(f: Fact, value: string)
    ensures Stored(f, Another(f, value)) != Stored(f, value)
  {
    hide Digits;
    DigitsDiffer(UUID_START, '1', '2');
    assert |value + "x"| != |value|;
  }

  /** A host with all the given facts but one, whose value it contradicts. */
  function Contradicting(facts: FactMap, f: Fact): Host
    requires f in facts
  {
    var given := map g | g in facts :: Text(facts[g]);
    Host(0, "org", (map[InsightsId := Text(UUID_ONE), ProviderId := Text("p")] + given)[f := Text(Another(f, facts[f]))], None)
  }

  lemma ContradictingIs(facts: FactMap, f: Fact)
    requires f in facts
    ensures var h := Contradicting(facts, f);
            && Paired(h) && Column(h, f) == Some(Text(Another(f, facts[f])))
            && forall g :: g in facts && g != f ==> HasInMemory(h, Item(g, facts[g]))
  {
    hide Another;
  }

  lemma ContradictingContradicts(facts: FactMap, f: Fact)
    requires f in facts
    ensures !Consistent(Contradicting(facts, f), facts, f)
  {
    ContradictingIs(facts, f);
    AnotherIsOther(f, facts[f]);
    hide Another, Stored, Contradicting;
  }

  lemma FoundAtOnce(facts: FactMap, useSubmanId: bool, ignoreInsights: bool, f: Fact)
    requires var stages := Stages(facts, useSubmanId, ignoreInsights);
             stages != [] && f in facts && forall x :: x in stages[0].target ==> x.key != f
    ensures FoundAt(Contradicting(facts, f), 0, "org", Stages(facts, useSubmanId, ignoreInsights), InMemory([Contradicting(facts, f)]))
  {
    var stages := Stages(facts, useSubmanId, ignoreInsights);
    var s := stages[0];
    var h := Contradicting(facts, f);
    assert s in stages;
    TargetsPaired(facts, useSubmanId, ignoreInsights, s);
    FirstTargetHasKey(facts, useSubmanId, ignoreInsights);
    ContradictingIs(facts, f);
    assert h.org == "org";
    hide Stages, Contradicting, Stored;
    assert forall x :: x in s.target ==> x == Item(x.key, facts[x.key]) && HasInMemory(h, x);
    assert SelectedInMemory(h, s.target);
    assert Pool(InMemory([h]))[0] == h;
  }

  lemma FirstTargetHasKey(facts: FactMap, useSubmanId: bool, ignoreInsights: bool)
    requires Stages(facts, useSubmanId, ignoreInsights) != []
    ensures exists x :: x in Stages(facts, useSubmanId, ignoreInsights)[0].target
  {
    var target := Stages(facts, useSubmanId, ignoreInsights)[0].target;
    assert target[0] in target;
  }

  /** Without a provider and without the flag, the search by insights id finds a host
      that the search by subscription manager id rejects. */
  lemma FoundByInsightsId(facts: FactMap, h: Host)
    requires ProviderId !in facts && SubscriptionManagerId in facts && InsightsId in facts
    requires h == Host(0, "org", map[InsightsId := Text(facts[InsightsId]), SubscriptionManagerId := Text(facts[SubscriptionManagerId] + "x")], None)
    ensures FoundAt(h, 1, "org", Stages(facts, false, false), InMemory([h])) && Paired(h)
    ensures !Consistent(h, facts, SubscriptionManagerId)
  {
    var s, i := Item(SubscriptionManagerId, facts[SubscriptionManagerId]), Item(InsightsId, facts[InsightsId]);
    var stages := Stages(facts, false, false);
    StageAt(facts, false, false);
    assert IdFacts(facts, false) == [s, i] && ImmutableFacts(facts, false) == [];
    assert stages[0].target == [s] && stages[1].target == [i];
    assert |facts[SubscriptionManagerId] + "x"| != |facts[SubscriptionManagerId]|;
    assert s in [s] && i in [i];
    assert SelectedInMemory(h, [i]) && !SelectedInMemory(h, [s]);
    assert Pool(InMemory([h]))[0] == h;
  }

  lemma FoundContradictsNoTarget(h: Host, k: nat, org: string, stages: seq<Stage>, source: Source)
    requires FoundAt(h, k, org, stages, source)
    ensures k < |stages| && stages[k] in stages && NoIncorrect(h, stages[k].target)
  {
    CandidateMeaning(h, org, stages[k].target, source);
  }

  lemma CarriedIsProtected(facts: FactMap, useSubmanId: bool, ignoreInsights: bool, f: Fact, pairedOnly: bool)
    requires CarriedAlong(facts, useSubmanId, ignoreInsights, f)
    ensures Protects(facts, useSubmanId, ignoreInsights, f, pairedOnly)
  {
    var stages := Stages(facts, useSubmanId, ignoreInsights);
    if f in facts {
      CarriedInTargets(facts, useSubmanId, ignoreInsights, f);
    }
    hide Stages, CarriedAlong, FoundAt;
    forall h, k: nat, org, source | FoundAt(h, k, org, stages, source) ensures Consistent(h, facts, f) {
      FoundContradictsNoTarget(h, k, org, stages, source);
    }
  }

  lemma NotInFirstTarget(facts: FactMap, useSubmanId: bool, ignoreInsights: bool, f: Fact)
    requires !CarriedAlong(facts, useSubmanId, ignoreInsights, f)
    requires !(f == SubscriptionManagerId && ProviderId !in facts)
    ensures var stages := Stages(facts, useSubmanId, ignoreInsights);
            stages != [] && forall x :: x in stages[0].target ==> x.key != f
  {
    NoStageIff(facts, useSubmanId, ignoreInsights);
  }

  lemma NotCarriedIsContradicted(facts: FactMap, useSubmanId: bool, ignoreInsights: bool, f: Fact) returns (h: Host, k: nat)
    requires !CarriedAlong(facts, useSubmanId, ignoreInsights, f)
    ensures FoundAt(h, k, "org", Stages(facts, useSubmanId, ignoreInsights), InMemory([h]))
    ensures Paired(h) && !Consistent(h, facts, f)
  {
    if f == SubscriptionManagerId && ProviderId !in facts {
      h := Host(0, "org", map[InsightsId := Text(facts[InsightsId]), SubscriptionManagerId := Text(facts[SubscriptionManagerId] + "x")], None);
      k := 1;
      FoundByInsightsId(facts, h);
    } else {
      NotInFirstTarget(facts, useSubmanId, ignoreInsights, f);
      FoundAtOnce(facts, useSubmanId, ignoreInsights, f);
      ContradictingIs(facts, f);
      ContradictingContradicts(facts, f);
      h, k := Contradicting(facts, f), 0;
    }
  }

  /** A match contradicts none of the carried facts, and for every other fact there is
      a host that is matched and contradicts it. */
  lemma ProtectedIff(facts: FactMap, useSubmanId: bool, ignoreInsights: bool, f: Fact, pairedOnly: bool)
    ensures Protects(facts, useSubmanId, ignoreInsights, f, pairedOnly)
       <==> CarriedAlong(facts, useSubmanId, ignoreInsights, f)
  {
    if CarriedAlong(facts, useSubmanId, ignoreInsights, f) {
      CarriedIsProtected(facts, useSubmanId, ignoreInsights, f, pairedOnly);
    } else {
      var h, k := NotCarriedIsContradicted(facts, useSubmanId, ignoreInsights, f);
      hide CarriedAlong, FoundAt, Stages;
      assert !Consistent(h, facts, f);
    }
  }

  /** In particular the insights-id flag protects the subscription manager id exactly
      when no provider id is given. */
  lemma FlagProtectsIff(facts: FactMap, pairedOnly: bool)
    requires SubscriptionManagerId in facts
    ensures Protects(facts, false, true, SubscriptionManagerId, pairedOnly) <==> ProviderId !in facts
  {
    ProtectedIff(facts, false, true, SubscriptionManagerId, pairedOnly);
  }
}
