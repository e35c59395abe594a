/** Staleness states of hosts as SQL filters, and the merging of adjacent states
    into one interval, for any number of boundaries. */
module Staleness {
  import opened Common
  import opened SqlLogic

  /** Boundary k (from 1) of a host: its last check-in plus the k-th interval. */
  function Boundary(secs: seq<int>, last: Option<int>, k: nat): Option<int>
    requires 1 <= k <= |secs|
  {
    if last.Some? then Some(last.value + secs[k - 1]) else None
  }

  function SqlLess(now: int, b: Option<int>): Truth {
    if b.None? then Unknown else if now < b.value then True else False
  }

  function SqlAtLeast(now: int, b: Option<int>): Truth {
    if b.None? then Unknown else if now >= b.value then True else False
  }

  /** State i of the states 0 (fresh) to |secs| (culled). */
  function State(secs: seq<int>, now: int, last: Option<int>, i: nat): Truth
    requires secs != [] && i <= |secs|
  {
    if i == 0 then SqlLess(now, Boundary(secs, last, 1))
    else if i == |secs| then SqlAtLeast(now, Boundary(secs, last, i))
    else SqlAnd(SqlAtLeast(now, Boundary(secs, last, i)), SqlLess(now, Boundary(secs, last, i + 1)))
  }

  /** A host that has checked in is in a state once the boundary before it is reached and
      until the next one is. */
  lemma StateIff(secs: seq<int>, now: int, last: Option<int>, i: nat)
    requires secs != [] && i <= |secs|
    ensures State(secs, now, last, i) == True <==>
      && last.Some?
      && (i > 0 ==> last.value + secs[i - 1] <= now)
      && (i < |secs| ==> now < last.value + secs[i])
  {
  }

  /** The conditions the combined filter is made of. */
  datatype Condition = HasCheckIn | Before(k: nat) | From(k: nat) | Between(j: nat, k: nat)

  predicate ValidCondition(c: Condition, n: nat) {
    match c
    case HasCheckIn => true
    case Before(k) => 1 <= k <= n
    case From(k) => 1 <= k <= n
    case Between(j, k) => 1 <= j <= n && 1 <= k <= n
  }

  function Eval(secs: seq<int>, now: int, last: Option<int>, c: Condition): Truth
    requires ValidCondition(c, |secs|)
  {
    match c
    case HasCheckIn => if last.Some? then True else False
    case Before(k) => SqlLess(now, Boundary(secs, last, k))
    case From(k) => SqlAtLeast(now, Boundary(secs, last, k))
    case Between(j, k) => SqlAnd(SqlAtLeast(now, Boundary(secs, last, j)), SqlLess(now, Boundary(secs, last, k)))
  }

  /** A maximal run of adjacent states. */
  datatype Run = Run(start: nat, end: nat)

  function ConditionOf(r: Run, n: nat): (c: Condition)
    requires r.start <= r.end <= n && n >= 1
    ensures ValidCondition(c, n)
  {
    if r.start == 0 && r.end == n then HasCheckIn
    else if r.start == 0 then Before(r.end + 1)
    else if r.end == n then From(r.start)
    else Between(r.start, r.end + 1)
  }

  predicate Ascending(secs: seq<int>) {
    forall i, j :: 0 <= i <= j < |secs| ==> secs[i] <= secs[j]
  }

  predicate InSomeState(secs: seq<int>, now: int, last: Option<int>, r: Run)
    requires secs != [] && r.end <= |secs|
  {
    exists i: nat :: r.start <= i <= r.end && State(secs, now, last, i) == True
  }

  /** The state a host with a check-in is in. */
  function Current(secs: seq<int>, now: int, last: int, i: nat): (s: nat)
    requires secs != [] && i <= |secs|
    ensures i <= s <= |secs|
    ensures forall k :: i <= k < s ==> now >= last + secs[k]
    ensures s < |secs| ==> now < last + secs[s]
    decreases |secs| - i
  {
    if i < |secs| && now >= last + secs[i] then Current(secs, now, last, i + 1) else i
  }

  /** With ascending boundaries a host that has checked in is in exactly one state,
      and one that has not is in none. */
  lemma ExactlyOneState(secs: seq<int>, now: int, last: Option<int>)
    requires secs != [] && Ascending(secs)
    ensures last.Some? ==> State(secs, now, last, Current(secs, now, last.value, 0)) == True
    ensures last.Some? ==> forall i: nat :: i <= |secs| && State(secs, now, last, i) == True ==> i == Current(secs, now, last.value, 0)
    ensures last.None? ==> forall i: nat :: i <= |secs| ==> State(secs, now, last, i) == Unknown
  {
    if last.Some? {
      var s := Current(secs, now, last.value, 0);
      forall i: nat | i <= |secs| && State(secs, now, last, i) == True ensures i == s {
        assert i > 0 ==> now >= last.value + secs[i - 1];
        assert i < |secs| ==> now < last.value + secs[i];
        assert s > 0 ==> now >= last.value + secs[s - 1];
      }
    }
  }

  /** One interval stands for all the states of its run. */
  lemma RunMeansItsStates(secs: seq<int>, now: int, last: Option<int>, r: Run)
    requires secs != [] && Ascending(secs) && r.start <= r.end <= |secs|
    ensures Eval(secs, now, last, ConditionOf(r, |secs|)) == True <==> InSomeState(secs, now, last, r)
  {
    ExactlyOneState(secs, now, last);
    if last.Some? {
      var s := Current(secs, now, last.value, 0);
      if r.start <= s <= r.end {
        assert State(secs, now, last, s) == True;
        assert r.start > 0 ==> now >= last.value + secs[r.start - 1];
        assert r.end < |secs| ==> now < last.value + secs[s] && secs[s] <= secs[r.end];
      } else if s < r.start {
        assert now < last.value + secs[s] && secs[s] <= secs[r.start - 1];
      } else {
        assert now >= last.value + secs[s - 1] && secs[r.end] <= secs[s - 1];
      }
    }
  }

  /** Merging preserves meaning for every run, moment and host exactly when the
      boundaries ascend. */
  lemma MergingIsSoundIff(secs: seq<int>)
    requires secs != []
    ensures Ascending(secs) <==>
            forall r: Run, now, last: Option<int> | r.start <= r.end <= |secs| ::
              Eval(secs, now, last, ConditionOf(r, |secs|)) == True <==> InSomeState(secs, now, last, r)
  {
    if Ascending(secs) {
      forall r: Run, now, last: Option<int> | r.start <= r.end <= |secs|
        ensures Eval(secs, now, last, ConditionOf(r, |secs|)) == True <==> InSomeState(secs, now, last, r)
      {
        RunMeansItsStates(secs, now, last, r);
      }
    } else {
      var i, j :| 0 <= i < j < |secs| && secs[i] > secs[j];
      var k := Descent(secs, i, j);
      var now := secs[k + 1];
      // at `now` a host checked in at 0 is still before boundary k+1, but not
      // before boundary k+2, which alone the merged filter looks at
      var s := FirstFuture(secs, now, k);
      assert State(secs, now, Some(0), s) == True;
      assert InSomeState(secs, now, Some(0), Run(0, k + 1));
      assert Eval(secs, now, Some(0), ConditionOf(Run(0, k + 1), |secs|)) != True;
    }
  }

  lemma {:induction false} Descent(secs: seq<int>, i: nat, j: nat) returns (k: nat)
    requires i < j < |secs| && secs[i] > secs[j]
    ensures k + 1 < |secs| && secs[k] > secs[k + 1]
    decreases j - i
  {
    if secs[i] > secs[i + 1] {
      k := i;
    } else {
      k := Descent(secs, i + 1, j);
    }
  }

  /** The first boundary not yet reached. */
  lemma {:induction false} FirstFuture(secs: seq<int>, now: int, k: nat) returns (s: nat)
    requires k < |secs| && now < secs[k]
    ensures s <= k && now < secs[s] && (s > 0 ==> now >= secs[s - 1])
    decreases k
  {
    if k > 0 && now < secs[k - 1] {
      s := FirstFuture(secs, now, k - 1);
    } else {
      s := k;
    }
  }

  /* ---------- the combined filter ---------- */

  /** sorted() over the set of canonical indices. */
  method SortedIndices(states: seq<nat>, n: nat) returns (present: seq<nat>)
    requires forall s :: s in states ==> s <= n
    ensures forall i, j :: 0 <= i < j < |present| ==> present[i] < present[j]
    ensures forall s :: s in present <==> s in states
  {
    present := [];
    for i := 0 to n + 1
      invariant forall i, j :: 0 <= i < j < |present| ==> present[i] < present[j]
      invariant forall j :: 0 <= j < |present| ==> present[j] < i
      invariant forall s :: s in present <==> s in states && s < i
    {
      if i in states {
        present := present + [i];
      }
    }
  }

  /** A state lies in one of the runs. */
  predicate InRuns(runs: seq<Run>, s: nat) {
    exists r :: r in runs && r.start <= s <= r.end
  }

  predicate ValidRuns(runs: seq<Run>, n: nat) {
    forall r :: r in runs ==> r.start <= r.end <= n
  }

  /** A last run ending at e, when e+1 follows, is stretched by one. */
  lemma StretchLast(runs: seq<Run>, s: nat)
    requires runs != [] && runs[|runs| - 1].start <= runs[|runs| - 1].end
    ensures var l := runs[|runs| - 1];
            InRuns(runs[|runs| - 1 := Run(l.start, l.end + 1)], s) <==> InRuns(runs, s) || s == l.end + 1
  {
    var k := |runs| - 1;
    var l := runs[k];
    var stretched := runs[k := Run(l.start, l.end + 1)];
    assert stretched[k] in stretched && l in runs;
    assert forall r :: r in runs ==> r == l || r in stretched by {
      forall r | r in runs && r != l ensures r in stretched {
        var i :| 0 <= i < |runs| && runs[i] == r;
        assert stretched[i] == r;
      }
    }
    assert forall r :: r in stretched ==> r == stretched[k] || r in runs;
  }

  method BuildRuns(present: seq<nat>, n: nat) returns (runs: seq<Run>)
    requires forall i, j :: 0 <= i < j < |present| ==> present[i] < present[j]
    requires forall s :: s in present ==> s <= n
    ensures ValidRuns(runs, n) && forall s :: s in present <==> InRuns(runs, s)
  {
    runs := [];
    for i := 0 to |present|
      invariant ValidRuns(runs, n)
      invariant (runs == [] <==> i == 0) && (i > 0 ==> runs[|runs| - 1].end == present[i - 1])
      invariant forall s :: s in present[..i] <==> InRuns(runs, s)
    {
      var idx := present[i];
      assert present[..i + 1] == present[..i] + [idx];
      assert idx in present;
      if runs == [] || idx != runs[|runs| - 1].end + 1 {
        assert forall s :: InRuns(runs + [Run(idx, idx)], s) <==> InRuns(runs, s) || s == idx by {
          assert Run(idx, idx) in runs + [Run(idx, idx)];
          assert forall r :: r in runs ==> r in runs + [Run(idx, idx)];
        }
        runs := runs + [Run(idx, idx)];
      } else {
        var k := |runs| - 1;
        assert runs[k] in runs;
        forall s ensures InRuns(runs[k := Run(runs[k].start, idx)], s) <==> InRuns(runs, s) || s == idx {
          StretchLast(runs, s);
        }
        runs := runs[k := Run(runs[k].start, idx)];
      }
    }
    assert present[..|present|] == present;
  }

  /** A state asked for: one of the canonical ones, or any other name. */
  datatype Name = Canonical(index: nat) | Other(name: string)

  /** What the filters of the other states, where the service has any, say of a host. */
  type OtherFilters = string -> Truth

  /** The state of the host is TRUE. */
  predicate NameHolds(secs: seq<int>, now: int, last: Option<int>, s: Name, others: OtherFilters)
    requires secs != [] && (s.Canonical? ==> s.index <= |secs|)
  {
    match s
    case Canonical(i) => State(secs, now, last, i) == True
    case Other(name) => others(name) == True
  }

  /** A part of the filter: an interval, or the filter of another state. */
  datatype Part = Interval(condition: Condition) | Named(name: string)

  predicate ValidPart(p: Part, n: nat) {
    p.Interval? ==> ValidCondition(p.condition, n)
  }

  function EvalPart(secs: seq<int>, now: int, last: Option<int>, p: Part, others: OtherFilters): Truth
    requires ValidPart(p, |secs|)
  {
    match p
    case Interval(c) => Eval(secs, now, last, c)
    case Named(name) => others(name)
  }

  /** The whole filter holds of a host when one of its parts is TRUE. */
  predicate Holds(secs: seq<int>, now: int, last: Option<int>, parts: seq<Part>, others: OtherFilters)
    requires forall p :: p in parts ==> ValidPart(p, |secs|)
  {
    SqlOrAll(seq(|parts|, i requires 0 <= i < |parts| =>
      assert parts[i] in parts; EvalPart(secs, now, last, parts[i], others))) == True
  }

  datatype FilterError = NoSuchState

  /** The canonical states asked for, and the other names, each once in order. */
  method SplitNames(states: seq<Name>) returns (indices: seq<nat>, names: seq<string>)
    ensures forall i :: i in indices <==> Canonical(i) in states
    ensures Distinct(names) && forall s :: s in names <==> Other(s) in states
  {
    indices, names := [], [];
    for i := 0 to |states|
      invariant forall j :: j in indices <==> Canonical(j) in states[..i]
      invariant Distinct(names) && forall s :: s in names <==> Other(s) in states[..i]
    {
      assert states[..i + 1] == states[..i] + [states[i]];
      match states[i] {
        case Canonical(index) => indices := indices + [index];
        case Other(name) =>
          if name !in names {
            names := names + [name];
          }
      }
    }
    assert states[..|states|] == states;
  }

  /** The combined filter for any list of states, in any order and with repeats, is
      the disjunction of the states; `known` are the other names that have a filter,
      and any further name is an error. */
  method CombinedFilter(n: nat, states: seq<Name>, known: set<string>) returns (r: Result<seq<Part>, FilterError>)
    requires n >= 1 && forall s :: s in states && s.Canonical? ==> s.index <= n
    ensures r.Err? <==> exists s :: s in states && s.Other? && s.name !in known
    ensures r.Ok? ==> forall p :: p in r.value ==> ValidPart(p, n)
    ensures r.Ok? ==> forall secs: seq<int>, now, last: Option<int>, others: OtherFilters | |secs| == n && Ascending(secs) ::
              Holds(secs, now, last, r.value, others) <==> exists s :: s in states && NameHolds(secs, now, last, s, others)
  {
    var indices, names := SplitNames(states);
    assert forall i :: i in indices ==> Canonical(i) in states;
    var present := SortedIndices(indices, n);
    var runs := BuildRuns(present, n);
    var parts: seq<Part> := [];
    for i := 0 to |runs|
      invariant |parts| == i && forall j :: 0 <= j < i ==> runs[j] in runs && parts[j] == Interval(ConditionOf(runs[j], n))
    {
      assert runs[i] in runs;
      parts := parts + [Interval(ConditionOf(runs[i], n))];
    }
    for i := 0 to |names|
      invariant |parts| == |runs| + i && forall j :: 0 <= j < i ==> names[j] in known && parts[|runs| + j] == Named(names[j])
      invariant forall j :: 0 <= j < |runs| ==> runs[j] in runs && parts[j] == Interval(ConditionOf(runs[j], n))
    {
      if names[i] !in known {
        assert names[i] in names && Other(names[i]) in states;
        return Err(NoSuchState);
      }
      parts := parts + [Named(names[i])];
    }
    assert forall s :: s in states && s.Other? ==> s.name in names;
    PartsValid(parts, runs, names, n);
    forall secs: seq<int>, now, last: Option<int>, others: OtherFilters | |secs| == n && Ascending(secs)
      ensures Holds(secs, now, last, parts, others) <==> exists s :: s in states && NameHolds(secs, now, last, s, others)
    {
      assert forall s :: s in indices <==> InRuns(runs, s);
      FilterMeaning(secs, now, last, indices, names, runs, parts, others);
      NamesMeaning(secs, now, last, states, indices, names, others);
    }
    r := Ok(parts);
  }

  lemma PartsValid(parts: seq<Part>, runs: seq<Run>, names: seq<string>, n: nat)
    requires n >= 1 && ValidRuns(runs, n) && |parts| == |runs| + |names|
    requires forall j :: 0 <= j < |runs| ==> runs[j] in runs && parts[j] == Interval(ConditionOf(runs[j], n))
    requires forall j :: 0 <= j < |names| ==> parts[|runs| + j] == Named(names[j])
    ensures forall p :: p in parts ==> ValidPart(p, n)
  {
    forall p | p in parts ensures ValidPart(p, n) {
      var j :| 0 <= j < |parts| && parts[j] == p;
      assert j >= |runs| ==> parts[|runs| + (j - |runs|)] == Named(names[j - |runs|]);
    }
  }

  /** One of the indices, or one of the names. */
  predicate AnyHolds(secs: seq<int>, now: int, last: Option<int>, indices: seq<nat>, names: seq<string>, others: OtherFilters)
    requires secs != [] && forall i :: i in indices ==> i <= |secs|
  {
    || (exists i :: i in indices && State(secs, now, last, i) == True)
    || (exists s :: s in names && others(s) == True)
  }

  lemma NamesMeaning(secs: seq<int>, now: int, last: Option<int>, states: seq<Name>, indices: seq<nat>, names: seq<string>,
                     others: OtherFilters)
    requires secs != [] && (forall s :: s in states && s.Canonical? ==> s.index <= |secs|)
    requires forall i :: i in indices <==> Canonical(i) in states
    requires forall s :: s in names <==> Other(s) in states
    ensures forall i :: i in indices ==> i <= |secs|
    ensures AnyHolds(secs, now, last, indices, names, others) <==> exists s :: s in states && NameHolds(secs, now, last, s, others)
  {
    forall i | i in indices ensures i <= |secs| {
      assert Canonical(i) in states;
    }
    if i :| i in indices && State(secs, now, last, i) == True {
      assert NameHolds(secs, now, last, Canonical(i), others);
    }
    if s :| s in names && others(s) == True {
      assert NameHolds(secs, now, last, Other(s), others);
    }
  }

  lemma FilterMeaning(secs: seq<int>, now: int, last: Option<int>, indices: seq<nat>, names: seq<string>, runs: seq<Run>,
                      parts: seq<Part>, others: OtherFilters)
    requires secs != [] && Ascending(secs) && ValidRuns(runs, |secs|) && |parts| == |runs| + |names|
    requires forall j :: 0 <= j < |runs| ==> runs[j] in runs && parts[j] == Interval(ConditionOf(runs[j], |secs|))
    requires forall j :: 0 <= j < |names| ==> parts[|runs| + j] == Named(names[j])
    requires (forall s :: s in indices ==> s <= |secs|) && forall s :: s in indices <==> InRuns(runs, s)
    requires forall p :: p in parts ==> ValidPart(p, |secs|)
    ensures Holds(secs, now, last, parts, others) <==> AnyHolds(secs, now, last, indices, names, others)
  {
    var truths := seq(|parts|, i requires 0 <= i < |parts| =>
      assert parts[i] in parts; EvalPart(secs, now, last, parts[i], others));
    OrAllTrue(truths);
    if s :| s in indices && State(secs, now, last, s) == True {
      assert InRuns(runs, s);
      var r :| r in runs && r.start <= s <= r.end;
      var j :| 0 <= j < |runs| && runs[j] == r;
      RunMeansItsStates(secs, now, last, r);
      assert truths[j] == True;
    }
    if s :| s in names && others(s) == True {
      var j :| 0 <= j < |names| && names[j] == s;
      assert truths[|runs| + j] == True;
    }
    if True in truths {
      var j :| 0 <= j < |truths| && truths[j] == True;
      if j < |runs| {
        RunMeansItsStates(secs, now, last, runs[j]);
        var s: nat :| runs[j].start <= s <= runs[j].end && State(secs, now, last, s) == True;
        assert InRuns(runs, s);
      } else {
        assert parts[|runs| + (j - |runs|)] == Named(names[j - |runs|]);
        assert names[j - |runs|] in names;
      }
    }
  }
}
