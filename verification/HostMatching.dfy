/** How an ingested host is matched: among the hosts of its batch first, and in the
    database only when none of them fits. */
module HostMatching {
  import opened Common
  import opened FactMatching

  predicate FoundBy(q: Query, h: Host, k: nat, source: Source) {
    FoundAt(h, k, q.org, StagesOf(q), source)
  }

  ghost predicate Finds(q: Query, h: Host, source: Source) {
    exists k: nat :: FoundBy(q, h, k, source)
  }

  predicate FindsNothing(q: Query, source: Source) {
    forall s :: s in StagesOf(q) ==> !HasCandidate(q.org, s.target, source)
  }

  /** A search has one answer. */
  lemma FoundIsUnique(q: Query, h: Host, k: nat, g: Host, j: nat, source: Source)
    requires FoundBy(q, h, k, source) && FoundBy(q, g, j, source)
    ensures h == g && k == j
  {
    hide Stages, Candidate;
  }

  lemma FoundIsSomething(q: Query, h: Host, k: nat, source: Source)
    requires FoundBy(q, h, k, source)
    ensures !FindsNothing(q, source)
  {
    hide Stages, Candidate;
    assert StagesOf(q)[k] in StagesOf(q);
  }

  predicate NoneFits(q: Query, source: Source) {
    forall f :: !SomeFits(f, q, source)
  }

  lemma NothingFitsIff(q: Query, source: Source)
    ensures FindsNothing(q, source) <==> NoneFits(q, source)
  {
    hide Stages, HasCandidate, SomeFits;
    if FindsNothing(q, source) {
      NothingFits(q, source);
    } else {
      var s :| s in StagesOf(q) && HasCandidate(q.org, s.target, source);
      StageFits(q, s, source);
    }
  }

  /** The hosts of the batch first, and the database, which alone refuses a provider id
      without its type, only when none of them fits. */
  method MatchHost(q: Query, existing: seq<Host>, rows: seq<Host>) returns (r: Result<Option<Host>, SearchError>)
    ensures r.Err? <==> FindsNothing(q, InMemory(existing)) && MissingType(q.facts, q.useSubmanId)
    ensures r.Ok? && r.value.Some? ==>
              if FindsNothing(q, InMemory(existing)) then Finds(q, r.value.value, InDb(rows))
              else Finds(q, r.value.value, InMemory(existing))
    ensures r.Ok? && r.value.None? ==> FindsNothing(q, InMemory(existing)) && FindsNothing(q, InDb(rows))
    // on the columns: the organisation's best fit in memory, or in the database if none fits there
    ensures r.Ok? && r.value.Some? ==> r.value.value in existing + rows && r.value.value.org == q.org
    ensures r.Ok? && r.value.Some? ==>
              if NoneFits(q, InMemory(existing)) then exists f :: BestFit(r.value.value, f, q, InDb(rows))
              else exists f :: BestFit(r.value.value, f, q, InMemory(existing))
    ensures r.Ok? && r.value.None? ==> NoneFits(q, InMemory(existing)) && NoneFits(q, InDb(rows))
  {
    hide FoundAt, Stages, HasCandidate, MissingType, BestFit, SomeFits;
    NothingFitsIff(q, InMemory(existing));
    if existing != [] {
      r := FindExistingHost(q.org, q.facts, q.useSubmanId, q.ignoreInsights, InMemory(existing));
      if r.value.Some? {
        ghost var k: nat :| FoundAt(r.value.value, k, q.org, StagesOf(q), InMemory(existing));
        FoundIsSomething(q, r.value.value, k, InMemory(existing));
        assert FoundBy(q, r.value.value, k, InMemory(existing));
        return;
      }
    } else {
      NothingInNothing(q);
    }
    r := FindExistingHost(q.org, q.facts, q.useSubmanId, q.ignoreInsights, InDb(rows));
    if r.Ok? && r.value.Some? {
      ghost var k: nat :| FoundAt(r.value.value, k, q.org, StagesOf(q), InDb(rows));
      assert FoundBy(q, r.value.value, k, InDb(rows));
    }
  }

  lemma NothingInNothing(q: Query)
    ensures FindsNothing(q, InMemory([]))
  {
  }

  /* ---------- against the database alone ---------- */

  /** Only insights ids are ever held as UUID objects. */
  predicate WellTyped(h: Host) {
    forall f :: f in h.columns && h.columns[f].Uuid? ==> f == InsightsId
  }

  /** The insights id is looked at in the last stage only. */
  lemma InsightsIdIsLast(q: Query, j: nat, x: Item)
    requires j < |StagesOf(q)| && x in StagesOf(q)[j].target && x.key == InsightsId
    ensures j == |StagesOf(q)| - 1
  {
    var immutable, ids := ImmutableFacts(q.facts, q.useSubmanId), IdFacts(q.facts, q.useSubmanId);
    StageAt(q.facts, q.useSubmanId, q.ignoreInsights);
    assert |ids| <= 2 && (|ids| == 2 ==> ids[0].key == SubscriptionManagerId);
    hide Stages;
    assert forall y :: y in immutable ==> y.key != InsightsId;
  }

  /** What the database selects at a stage before the last, memory does too. */
  lemma SameBeforeLast(q: Query, h: Host, j: nat)
    requires WellTyped(h) && j < |StagesOf(q)| - 1 && SelectedSql(h, StagesOf(q)[j].target)
    ensures SelectedInMemory(h, StagesOf(q)[j].target)
  {
    var target := StagesOf(q)[j].target;
    FiltersAgreeIff(h, target);
    hide SelectedSql, SelectedInMemory, StagesOf, OnlyCompoundMatches;
    forall x | x in target ensures !HeldOtherwise(h, x) {
      if x.key == InsightsId {
        InsightsIdIsLast(q, j, x);
      }
    }
  }

  /** Where memory finds a host by more than a provider type, the database alone finds
      the same one exactly when none of its rows fits an earlier stage and the host is
      the first of them at its own. */
  lemma MemoryFirstAgreesIff(q: Query, h: Host, k: nat, existing: seq<Host>, rows: seq<Host>)
    requires FoundBy(q, h, k, InMemory(existing)) && WellTyped(h) && !OnlyCompoundMatches(h, StagesOf(q)[k].target)
    ensures Finds(q, h, InDb(rows)) <==>
      && (forall j :: 0 <= j < k ==> !HasCandidate(q.org, StagesOf(q)[j].target, InDb(rows)))
      && IsFirst(h, q.org, StagesOf(q)[k].target, InDb(rows))
  {
    hide Stages, OnlyCompoundMatches;
    if Finds(q, h, InDb(rows)) {
      var j: nat :| FoundBy(q, h, j, InDb(rows));
      FoundNotLater(q, h, k, j, existing, rows);
      FoundNotEarlier(q, h, k, j, existing, rows);
    } else {
      assert !FoundBy(q, h, k, InDb(rows));
    }
  }

  lemma FoundNotLater(q: Query, h: Host, k: nat, j: nat, existing: seq<Host>, rows: seq<Host>)
    requires FoundBy(q, h, k, InMemory(existing)) && FoundBy(q, h, j, InDb(rows)) && WellTyped(h)
    requires !OnlyCompoundMatches(h, StagesOf(q)[k].target)
    ensures j <= k
  {
    FiltersAgreeIff(h, StagesOf(q)[k].target);
    hide Stages, OnlyCompoundMatches, SelectedSql, SelectedInMemory;
    assert Candidate(h, q.org, StagesOf(q)[k].target, InDb(rows)) && h in Pool(InDb(rows));
    assert HasCandidate(q.org, StagesOf(q)[k].target, InDb(rows));
  }

  lemma AlsoInMemory(q: Query, h: Host, j: nat, existing: seq<Host>, rows: seq<Host>)
    requires FoundBy(q, h, j, InDb(rows)) && j < |StagesOf(q)| - 1 && WellTyped(h) && h in existing
    ensures HasCandidate(q.org, StagesOf(q)[j].target, InMemory(existing))
  {
    hide Stages;
    SameBeforeLast(q, h, j);
    hide SelectedSql, SelectedInMemory;
    assert Candidate(h, q.org, StagesOf(q)[j].target, InMemory(existing)) && h in Pool(InMemory(existing));
  }

  lemma FoundNotEarlier(q: Query, h: Host, k: nat, j: nat, existing: seq<Host>, rows: seq<Host>)
    requires FoundBy(q, h, k, InMemory(existing)) && FoundBy(q, h, j, InDb(rows)) && WellTyped(h)
    ensures j >= k
  {
    hide Stages, Candidate;
    if j < k {
      AlsoInMemory(q, h, j, existing, rows);
    }
  }

  /** It does not always: a host of the batch that shares an insights id hides the row
      with the subscription manager id, which comes first. */
  lemma MemoryCanHideTheRow(s: string, i: string)
    ensures var q := Query("org", map[SubscriptionManagerId := s, InsightsId := i], false, false);
            var batched := Host(0, "org", map[InsightsId := Text(i)], None);
            var row := Host(1, "org", map[SubscriptionManagerId := Text(s), InsightsId := Uuid(i)], None);
            FoundBy(q, batched, 1, InMemory([batched])) && FoundBy(q, row, 0, InDb([batched, row]))
  {
    var q := Query("org", map[SubscriptionManagerId := s, InsightsId := i], false, false);
    var batched := Host(0, "org", map[InsightsId := Text(i)], None);
    var row := Host(1, "org", map[SubscriptionManagerId := Text(s), InsightsId := Uuid(i)], None);
    var x, y := Item(SubscriptionManagerId, s), Item(InsightsId, i);
    StageAt(q.facts, false, false);
    assert IdFacts(q.facts, false) == [x, y] && ImmutableFacts(q.facts, false) == [];
    assert StagesOf(q)[0].target == [x] && StagesOf(q)[1].target == [y];
    hide Stages;
    OneFactInMemory(batched, x);
    OneFactInMemory(batched, y);
    OneFactInDb(batched, x);
    OneFactInDb(row, x);
    hide SelectedSql, SelectedInMemory, Stored;
    assert Pool(InMemory([batched]))[0] == batched && Pool(InDb([batched, row]))[1] == row;
    assert IsFirst(batched, "org", [y], InMemory([batched]));
    assert IsFirst(row, "org", [x], InDb([batched, row]));
  }

  /** A search by one fact that is no compound component. */
  lemma OneFactInMemory(h: Host, x: Item)
    ensures SelectedInMemory(h, [x]) <==> HasInMemory(h, x)
  {
    assert x in [x];
  }

  lemma OneFactInDb(h: Host, x: Item)
    requires !IsCompound(x.key)
    ensures SelectedSql(h, [x]) <==> Has(h, x)
  {
    SelectedSqlIff(h, [x]);
    hide SelectedSql, Stored;
    assert x in [x];
  }
}
