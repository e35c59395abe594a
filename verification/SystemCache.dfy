/** The generation-counter cache of one system (one insights id, organisation
    and owner): readers and writers as a transition system whose steps are the
    single store operations, interleaved in any order. */
module SystemCache {
  import opened Common

  /** None, or the forwarded identity that selects a key variant. */
  type Variant = Option<string>

  /** A cache key: the generation and the variant. */
  datatype Key = Key(generation: nat, variant: Variant)

  /** Where a reader stands.  `need` is the newest commit whose invalidation had
      completed when the reader started. */
  datatype Reader =
    | Started(need: nat, variant: Variant)                          // before GET of the counter
    | Missed(need: nat, variant: Variant)                           // GET found nothing, SET NX next
    | Reread(need: nat, variant: Variant)                           // SET NX lost, GET again next
    | Keyed(need: nat, variant: Variant, generation: nat)           // cache lookup next
    | Querying(need: nat, variant: Variant, generation: nat)        // lookup missed, database next
    | Loaded(need: nat, variant: Variant, generation: nat, snapshot: nat) // database read
    | Done(need: nat, snapshot: nat)                                // answered with this version

  /** Database versions are numbered by commits.  `uninvalidated` holds the
      commits whose writers have not yet incremented the counter; `invalidated`
      is the newest commit whose writer has. */
  datatype State = State(
    version: nat,
    counter: Option<nat>,
    entries: map<Key, nat>,
    readers: seq<Reader>,
    uninvalidated: multiset<nat>,
    invalidated: nat)

  datatype Step =
    | Begin(variant: Variant)       // a request arrives
    | Get(r: nat)                   // GET counter
    | SetNx(r: nat)                 // SET counter 0 NX
    | Lookup(r: nat)                // cache get
    | ReadDb(r: nat)                // database query
    | Store(r: nat)                 // cache set, then answer
    | Skip(r: nat)                  // answer without storing (not exactly one host)
    | WriteDb                       // a writer commits
    | Incr(commit: nat)             // that writer increments the counter
    | Evict(key: Key)               // a cached answer expires
    | Expire                        // the counter expires

  const INITIAL := State(0, None, map[], [], multiset{}, 0)

  function With(s: State, r: nat, reader: Reader): State
    requires r < |s.readers|
  {
    s.(readers := s.readers[r := reader])
  }

  /** The number a reader takes from a counter that may be absent. */
  function Current(s: State): nat {
    if s.counter.Some? then s.counter.value else 0
  }

  predicate Enabled(s: State, step: Step) {
    match step
    case Begin(_) => true
    case Get(r) => r < |s.readers| && (s.readers[r].Started? || s.readers[r].Reread?)
    case SetNx(r) => r < |s.readers| && s.readers[r].Missed?
    case Lookup(r) => r < |s.readers| && s.readers[r].Keyed?
    case ReadDb(r) => r < |s.readers| && s.readers[r].Querying?
    case Store(r) => r < |s.readers| && s.readers[r].Loaded?
    case Skip(r) => r < |s.readers| && s.readers[r].Loaded?
    case WriteDb => true
    case Incr(commit) => commit in s.uninvalidated
    case Evict(_) => true
    case Expire => true
  }

  function Next(s: State, step: Step): State
    requires Enabled(s, step)
  {
    match step
    case Begin(v) => s.(readers := s.readers + [Started(s.invalidated, v)])
    case Get(r) =>
      var x := s.readers[r];
      if s.counter.Some? then With(s, r, Keyed(x.need, x.variant, s.counter.value))
      else if x.Started? then With(s, r, Missed(x.need, x.variant))
      else With(s, r, Keyed(x.need, x.variant, 0))
    case SetNx(r) =>
      var x := s.readers[r];
      if s.counter.None? then With(s.(counter := Some(0)), r, Keyed(x.need, x.variant, 0))
      else With(s, r, Reread(x.need, x.variant))
    case Lookup(r) =>
      var x := s.readers[r];
      var k := Key(x.generation, x.variant);
      if k in s.entries then With(s, r, Done(x.need, s.entries[k]))
      else With(s, r, Querying(x.need, x.variant, x.generation))
    case ReadDb(r) =>
      var x := s.readers[r];
      With(s, r, Loaded(x.need, x.variant, x.generation, s.version))
    case Store(r) =>
      var x := s.readers[r];
      With(s, r, Done(x.need, x.snapshot)).(entries := s.entries[Key(x.generation, x.variant) := x.snapshot])
    case Skip(r) =>
      var x := s.readers[r];
      With(s, r, Done(x.need, x.snapshot))
    case WriteDb =>
      s.(version := s.version + 1, uninvalidated := s.uninvalidated + multiset{s.version + 1})
    case Incr(commit) =>
      s.(counter := Some(Current(s) + 1),
         uninvalidated := s.uninvalidated - multiset{commit},
         invalidated := if commit > s.invalidated then commit else s.invalidated)
    case Evict(key) => s.(entries := s.entries - {key})
    case Expire => s.(counter := None)
  }

  /** Every answer is at least as new as the commits invalidated before its
      request began. */
  predicate Fresh(s: State) {
    forall r :: 0 <= r < |s.readers| && s.readers[r].Done? ==> s.readers[r].snapshot >= s.readers[r].need
  }

  /* ---------- why it works ---------- */

  /** floors[g] bounds from below what may be stored under generation g: the newest
      invalidated commit when the counter reached g, or less if nobody minds; an absent
      counter counts as 0. */
  ghost predicate Floors(s: State, floors: seq<nat>) {
    && |floors| == Current(s) + 1
    && (forall g :: 0 <= g < |floors| ==> floors[g] <= s.invalidated)
    && floors[|floors| - 1] == s.invalidated
    && s.invalidated <= s.version
    && (forall c :: c in s.uninvalidated ==> c <= s.version)
  }

  /** One list of floors for every key variant. */
  type AllFloors = Variant -> seq<nat>

  ghost predicate EntryOk(floors: seq<nat>, g: nat, snapshot: nat, version: nat) {
    g < |floors| && floors[g] <= snapshot <= version
  }

  ghost predicate ReaderOk(s: State, floors: AllFloors, x: Reader) {
    match x
    case Started(need, _) => need <= s.invalidated
    case Missed(need, _) => need <= s.invalidated
    case Reread(need, _) => need <= s.invalidated
    case Keyed(need, v, g) => g < |floors(v)| && need <= floors(v)[g]
    case Querying(need, v, g) => g < |floors(v)| && need <= s.version
    case Loaded(need, v, g, snap) => EntryOk(floors(v), g, snap, s.version) && need <= snap
    case Done(need, snap) => need <= snap
  }

  ghost predicate Inv(s: State, floors: AllFloors) {
    && (forall v :: Floors(s, floors(v)))
    && (forall k :: k in s.entries ==> EntryOk(floors(k.variant), k.generation, s.entries[k], s.version))
    && (forall r :: 0 <= r < |s.readers| ==> ReaderOk(s, floors, s.readers[r]))
  }

  ghost predicate Sound(s: State) {
    exists floors: AllFloors :: Inv(s, floors)
  }

  predicate IsReaderStep(step: Step) {
    step.Get? || step.SetNx? || step.Lookup? || step.ReadDb? || step.Store? || step.Skip?
  }

  /** A step of a reader changes that reader, the counter only from absent to 0, and the
      answers only by its own. */
  lemma ReaderStepFrame(s: State, step: Step)
    requires IsReaderStep(step) && Enabled(s, step)
    ensures var t := Next(s, step);
            && step.r < |s.readers| == |t.readers|
            && (forall r :: 0 <= r < |t.readers| && r != step.r ==> t.readers[r] == s.readers[r])
            && t.version == s.version && t.invalidated == s.invalidated && t.uninvalidated == s.uninvalidated
            && Current(t) == Current(s)
            && t.entries == if step.Store? && s.readers[step.r].Loaded?
                            then s.entries[Key(s.readers[step.r].generation, s.readers[step.r].variant) := s.readers[step.r].snapshot]
                            else s.entries
  {
  }

  lemma StepReaderOk(s: State, step: Step, floors: AllFloors)
    requires Inv(s, floors) && IsReaderStep(step) && Enabled(s, step)
    ensures ReaderOk(Next(s, step), floors, Next(s, step).readers[step.r])
  {
    assert ReaderOk(s, floors, s.readers[step.r]);
    assert Floors(s, floors(s.readers[step.r].variant));
  }

  lemma ReaderStepKeepsInv(s: State, step: Step, floors: AllFloors)
    requires Inv(s, floors) && IsReaderStep(step) && Enabled(s, step)
    ensures Inv(Next(s, step), floors)
  {
    ReaderStepFrame(s, step);
    StepReaderOk(s, step, floors);
    hide Next, Enabled;
    var t := Next(s, step);
    assert ReaderOk(s, floors, s.readers[step.r]);
    forall v ensures Floors(t, floors(v)) {
      assert Floors(s, floors(v));
    }
    forall r | 0 <= r < |t.readers| ensures ReaderOk(t, floors, t.readers[r]) {
      assert ReaderOk(s, floors, s.readers[r]);
    }
    forall k | k in t.entries ensures EntryOk(floors(k.variant), k.generation, t.entries[k], t.version) {
      assert k in s.entries ==> EntryOk(floors(k.variant), k.generation, s.entries[k], s.version);
    }
  }

  lemma IncrKeepsInv(s: State, commit: nat, floors: AllFloors)
    requires Inv(s, floors) && Enabled(s, Incr(commit))
    ensures Sound(Next(s, Incr(commit)))
  {
    var t := Next(s, Incr(commit));
    var more: AllFloors := (v: Variant) => floors(v) + [t.invalidated];
    forall v ensures Floors(t, more(v)) {
      assert Floors(s, floors(v));
    }
    forall r | 0 <= r < |t.readers| ensures ReaderOk(t, more, t.readers[r]) {
      assert ReaderOk(s, floors, s.readers[r]);
    }
    forall k | k in t.entries ensures EntryOk(more(k.variant), k.generation, t.entries[k], t.version) {
      assert EntryOk(floors(k.variant), k.generation, s.entries[k], s.version);
    }
    assert Inv(t, more);
  }

  /** Every step but the expiry of the counter keeps the invariant. */
  lemma StepKeepsSound(s: State, step: Step)
    requires Sound(s) && Enabled(s, step) && !step.Expire?
    ensures Sound(Next(s, step))
  {
    var floors: AllFloors :| Inv(s, floors);
    match step
    case Incr(commit) => IncrKeepsInv(s, commit, floors);
    case Begin(_) => assert Inv(Next(s, step), floors);
    case WriteDb =>
      forall r | 0 <= r < |s.readers| ensures ReaderOk(Next(s, step), floors, s.readers[r]) {
        assert ReaderOk(s, floors, s.readers[r]);
      }
      assert Inv(Next(s, step), floors);
    case Evict(_) =>
      forall r | 0 <= r < |s.readers| ensures ReaderOk(Next(s, step), floors, s.readers[r]) {
        assert ReaderOk(s, floors, s.readers[r]);
      }
      assert Inv(Next(s, step), floors);
    case _ => ReaderStepKeepsInv(s, step, floors);
  }

  /* ---------- expiry of the counter, exactly ---------- */

  /** Nothing that outlives the counter can be mistaken for an answer of the new
      count: no live answer and no reader under way carries a generation of 1 or
      more, and those of generation 0 are not older than the last invalidation. */
  predicate Harmless(s: State) {
    && (forall k :: k in s.entries ==> k.generation == 0 && s.entries[k] >= s.invalidated)
    && (forall r :: 0 <= r < |s.readers| ==> HarmlessReader(s, s.readers[r]))
  }

  predicate HarmlessReader(s: State, x: Reader) {
    match x
    case Keyed(_, _, g) => g == 0
    case Querying(_, _, g) => g == 0
    case Loaded(_, _, g, snap) => g == 0 && snap >= s.invalidated
    case _ => true
  }

  lemma HarmlessExpiryKeepsSound(s: State)
    requires Sound(s) && Harmless(s)
    ensures Sound(Next(s, Expire))
  {
    var floors: AllFloors :| Inv(s, floors);
    var t := Next(s, Expire);
    var none: AllFloors := (v: Variant) => [s.invalidated];
    assert Floors(s, floors(None));
    forall r | 0 <= r < |t.readers| ensures ReaderOk(t, none, t.readers[r]) {
      assert ReaderOk(s, floors, s.readers[r]) && HarmlessReader(s, s.readers[r]);
      assert forall v :: Floors(s, floors(v));
    }
    forall k | k in t.entries ensures EntryOk(none(k.variant), k.generation, t.entries[k], t.version) {
      assert EntryOk(floors(k.variant), k.generation, s.entries[k], s.version);
    }
    assert Inv(t, none);
  }

  /* ---------- runs ---------- */

  /** `t` is reached from `s` by these steps, and the counter expires only when
      that is harmless. */
  predicate Leads(s: State, steps: seq<Step>, t: State)
    decreases |steps|
  {
    if steps == [] then s == t
    else
      && Enabled(s, steps[0])
      && (steps[0].Expire? ==> Harmless(s))
      && Leads(Next(s, steps[0]), steps[1..], t)
  }

  lemma {:induction false} RunKeepsSound(s: State, steps: seq<Step>, t: State)
    requires Sound(s) && Leads(s, steps, t)
    ensures Sound(t)
    decreases |steps|
  {
    if steps != [] {
      if steps[0].Expire? {
        HarmlessExpiryKeepsSound(s);
      } else {
        StepKeepsSound(s, steps[0]);
      }
      RunKeepsSound(Next(s, steps[0]), steps[1..], t);
    }
  }

  lemma SoundIsFresh(s: State)
    requires Sound(s)
    ensures Fresh(s)
  {
    var floors: AllFloors :| Inv(s, floors);
    forall r | 0 <= r < |s.readers| && s.readers[r].Done? ensures s.readers[r].snapshot >= s.readers[r].need {
      assert ReaderOk(s, floors, s.readers[r]);
    }
  }

  /** Over every interleaving in which the counter expires only when that is
      harmless, no answer is older than the invalidations before its request. */
  lemma FreshnessTheorem(steps: seq<Step>, t: State)
    requires Leads(INITIAL, steps, t)
    ensures Fresh(t)
  {
    assert Inv(INITIAL, (v: Variant) => [0]);
    RunKeepsSound(INITIAL, steps, t);
    SoundIsFresh(t);
  }

  lemma {:induction false} InvalidationsAreSeen(s: State, steps: seq<Step>, t: State)
    requires Leads(s, steps, t)
    ensures s.invalidated <= t.invalidated && forall commit: nat :: Incr(commit) in steps ==> commit <= t.invalidated
    decreases |steps|
  {
    if steps != [] {
      InvalidationsAreSeen(Next(s, steps[0]), steps[1..], t);
      assert steps == [steps[0]] + steps[1..];
    }
  }

  lemma {:induction false} NeedStays(s: State, steps: seq<Step>, t: State, r: nat)
    requires Leads(s, steps, t) && r < |s.readers|
    ensures r < |t.readers| && t.readers[r].need == s.readers[r].need
    decreases |steps|
  {
    if steps != [] {
      NeedStays(Next(s, steps[0]), steps[1..], t, r);
    }
  }

  lemma {:induction false} LeadsJoin(s: State, a: seq<Step>, t: State, b: seq<Step>, u: State)
    requires Leads(s, a, t) && Leads(t, b, u)
    ensures Leads(s, a + b, u)
    decreases |a|
  {
    if a == [] {
      assert a + b == b;
    } else {
      assert (a + b)[0] == a[0] && (a + b)[1..] == a[1..] + b;
      LeadsJoin(Next(s, a[0]), a[1..], t, b, u);
    }
  }

  /** In terms of what has happened: a request that arrives after a writer has
      incremented the counter is never answered with a version before that writer's. */
  lemma NeverAnsweredWithLess(before: seq<Step>, s: State, commit: nat, variant: Variant, after: seq<Step>, t: State)
    requires Leads(INITIAL, before, s) && Incr(commit) in before
    requires Leads(Next(s, Begin(variant)), after, t)
    ensures |s.readers| < |t.readers|
    ensures t.readers[|s.readers|].Done? ==> t.readers[|s.readers|].snapshot >= commit
  {
    InvalidationsAreSeen(INITIAL, before, s);
    NeedStays(Next(s, Begin(variant)), after, t, |s.readers|);
    LeadsFrom(s, Begin(variant), after, t);
    LeadsJoin(INITIAL, before, s, [Begin(variant)] + after, t);
    FreshnessTheorem(before + ([Begin(variant)] + after), t);
    hide Leads;
  }

  /* ---------- the hypothesis cannot be dropped ---------- */

  /** Whatever happens next, answers stay fresh. */
  ghost predicate StaysFresh(s: State) {
    forall steps, t :: Leads(s, steps, t) ==> Fresh(t)
  }

  lemma StepBack(s: State, step: Step)
    requires Enabled(s, step) && !step.Expire? && !StaysFresh(Next(s, step))
    ensures !StaysFresh(s)
  {
    var steps, t :| Leads(Next(s, step), steps, t) && !Fresh(t);
    assert ([step] + steps)[1..] == steps;
    assert Leads(s, [step] + steps, t);
  }

  lemma NotFreshNow(s: State)
    requires !Fresh(s)
    ensures !StaysFresh(s)
  {
    assert Leads(s, [], s);
  }

  /** A new request that computes the key of an outdated answer is given it. */
  lemma OutdatedHit(s: State, k: Key)
    requires k in s.entries && s.entries[k] < s.invalidated && k.generation == Current(s)
    ensures !StaysFresh(s)
  {
    var r := |s.readers|;
    var s1 := Next(s, Begin(k.variant));
    var s2 := Next(s1, Get(r));
    if s.counter.Some? {
      var s3 := Next(s2, Lookup(r));
      assert s3.readers[r] == Done(s.invalidated, s.entries[k]);
      NotFreshNow(s3);
      StepBack(s2, Lookup(r));
    } else {
      var s3 := Next(s2, SetNx(r));
      var s4 := Next(s3, Lookup(r));
      assert s4.readers[r] == Done(s.invalidated, s.entries[k]);
      NotFreshNow(s4);
      StepBack(s3, Lookup(r));
      StepBack(s2, SetNx(r));
    }
    StepBack(s1, Get(r));
    StepBack(s, Begin(k.variant));
  }

  /** Writers alone bring a counter that restarted below an answer's generation
      back to that generation. */
  lemma {:induction false} CounterCatchesUp(s: State, k: Key)
    requires k in s.entries && s.entries[k] <= s.version && s.invalidated <= s.version
    requires Current(s) < k.generation || (Current(s) == k.generation && s.entries[k] < s.invalidated)
    ensures !StaysFresh(s)
    decreases k.generation - Current(s)
  {
    if Current(s) == k.generation {
      OutdatedHit(s, k);
    } else {
      var s1 := Next(s, WriteDb);
      assert s.version + 1 in s1.uninvalidated;
      var s2 := Next(s1, Incr(s.version + 1));
      CounterCatchesUp(s2, k);
      StepBack(s1, Incr(s.version + 1));
      StepBack(s, WriteDb);
    }
  }

  lemma HarmfulReader(s: State, r: nat)
    requires s.counter.None? && s.invalidated <= s.version
    requires r < |s.readers| && !HarmlessReader(s, s.readers[r])
    requires s.readers[r].Loaded? ==> s.readers[r].snapshot <= s.version
    requires forall k :: k in s.entries ==> s.entries[k] <= s.version
    ensures !StaysFresh(s)
    decreases s.readers[r].Keyed?, s.readers[r].Querying?
  {
    var x := s.readers[r];
    var k := Key(x.generation, x.variant);
    if x.Keyed? && k in s.entries {
      CounterCatchesUp(s, k);
    } else if x.Keyed? {
      HarmfulReader(Next(s, Lookup(r)), r);
      StepBack(s, Lookup(r));
    } else if x.Querying? {
      HarmfulReader(Next(s, ReadDb(r)), r);
      StepBack(s, ReadDb(r));
    } else {
      CounterCatchesUp(Next(s, Store(r)), k);
      StepBack(s, Store(r));
    }
  }

  /** Letting the counter expire preserves freshness exactly when nothing that
      outlives it carries a later generation or an outdated answer. */
  lemma ExpiryIsSafeIff(s: State)
    requires Sound(s)
    ensures StaysFresh(Next(s, Expire)) <==> Harmless(s)
  {
    var t := Next(s, Expire);
    if Harmless(s) {
      HarmlessExpiryKeepsSound(s);
      forall steps, u | Leads(t, steps, u) ensures Fresh(u) {
        RunKeepsSound(t, steps, u);
        SoundIsFresh(u);
      }
    } else {
      var floors: AllFloors :| Inv(s, floors);
      if k :| k in s.entries && !(k.generation == 0 && s.entries[k] >= s.invalidated) {
        assert EntryOk(floors(k.variant), k.generation, s.entries[k], s.version);
        assert Floors(s, floors(None));
        CounterCatchesUp(t, k);
      } else {
        var r: nat :| r < |s.readers| && !HarmlessReader(s, s.readers[r]);
        assert ReaderOk(s, floors, s.readers[r]);
        assert Floors(s, floors(None));
        HarmfulReader(t, r);
      }
    }
  }

  lemma LeadsFrom(s: State, step: Step, steps: seq<Step>, t: State)
    requires Enabled(s, step) && !step.Expire? && Leads(Next(s, step), steps, t)
    ensures Leads(s, [step] + steps, t)
  {
    assert ([step] + steps)[1..] == steps;
  }

  /** After one request the answer of generation 0 is live. */
  const ANSWERED := State(0, Some(0), map[Key(0, None) := 0], [Done(0, 0)], multiset{}, 0)

  /** Then one change is committed and invalidated. */
  const OUTDATED := State(1, Some(1), map[Key(0, None) := 0], [Done(0, 0)], multiset{}, 1)

  lemma OneRequest()
    ensures Enabled(INITIAL, Begin(None))
    ensures var s1 := Next(INITIAL, Begin(None));
            && Enabled(s1, Get(0))
            && var s2 := Next(s1, Get(0));
               && Enabled(s2, SetNx(0))
               && var s3 := Next(s2, SetNx(0));
                  && s3 == State(0, Some(0), map[], [Keyed(0, None, 0)], multiset{}, 0)
  {
  }

  lemma OneAnswer()
    ensures var s3 := State(0, Some(0), map[], [Keyed(0, None, 0)], multiset{}, 0);
            && Enabled(s3, Lookup(0))
            && var s4 := Next(s3, Lookup(0));
               && Enabled(s4, ReadDb(0))
               && var s5 := Next(s4, ReadDb(0));
                  && Enabled(s5, Store(0)) && Next(s5, Store(0)) == ANSWERED
  {
  }

  lemma OneChangeLater()
    ensures Enabled(ANSWERED, WriteDb) && Enabled(Next(ANSWERED, WriteDb), Incr(1))
    ensures Next(Next(ANSWERED, WriteDb), Incr(1)) == OUTDATED
  {
    assert 1 in Next(ANSWERED, WriteDb).uninvalidated;
  }

  lemma OutdatedAfterExpiry()
    ensures !StaysFresh(Next(OUTDATED, Expire))
  {
    OutdatedHit(Next(OUTDATED, Expire), Key(0, None));
  }

  lemma LeadsNowhere(s: State)
    ensures Leads(s, [], s)
  {
  }

  /** It does happen: one request, then one change and its invalidation, and then the
      counter expires with the answer of generation 0 still live. */
  lemma HarmfulExpiryIsReachable()
    ensures exists steps, s :: Leads(INITIAL, steps, s) && !StaysFresh(Next(s, Expire))
  {
    hide Leads, Next, Enabled, StaysFresh;
    LeadsNowhere(OUTDATED);
    OneRequest();
    OneAnswer();
    OneChangeLater();
    OutdatedAfterExpiry();
    var s1 := Next(INITIAL, Begin(None));
    var s2 := Next(s1, Get(0));
    var s3 := Next(s2, SetNx(0));
    var s4 := Next(s3, Lookup(0));
    var s5 := Next(s4, ReadDb(0));
    var later := [WriteDb] + ([Incr(1)] + []);
    LeadsFrom(Next(ANSWERED, WriteDb), Incr(1), [], OUTDATED);
    LeadsFrom(ANSWERED, WriteDb, [Incr(1)] + [], OUTDATED);
    LeadsFrom(s5, Store(0), later, OUTDATED);
    LeadsFrom(s4, ReadDb(0), [Store(0)] + later, OUTDATED);
    var steps := [ReadDb(0)] + ([Store(0)] + later);
    LeadsFrom(s3, Lookup(0), steps, OUTDATED);
    LeadsFrom(s2, SetNx(0), [Lookup(0)] + steps, OUTDATED);
    LeadsFrom(s1, Get(0), [SetNx(0)] + ([Lookup(0)] + steps), OUTDATED);
    LeadsFrom(INITIAL, Begin(None), [Get(0)] + ([SetNx(0)] + ([Lookup(0)] + steps)), OUTDATED);
  }

  /* ---------- storing what was read before the counter ---------- */

  /** The message consumer stores the host it has ingested under the counter it has read
      after its commit, without incrementing it. */
  function Ingested(s: State, generation: nat, snapshot: nat): State {
    s.(entries := s.entries[Key(generation, None) := snapshot])
  }

  /** The generation is no longer current, or no later commit than the host's has been
      invalidated; and no request under way is about to look under that key for more. */
  predicate IngestHarmless(s: State, generation: nat, snapshot: nat) {
    && generation <= Current(s)
    && (generation == Current(s) ==> snapshot >= s.invalidated)
    && forall r :: 0 <= r < |s.readers| ==> NotMisled(s.readers[r], generation, snapshot)
  }

  predicate NotMisled(x: Reader, generation: nat, snapshot: nat) {
    x.Keyed? && x.variant == None && x.generation == generation ==> x.need <= snapshot
  }

  /** The floors with that of one key lowered to what is stored there. */
  function Lowered(floors: AllFloors, generation: nat, snapshot: nat): (less: AllFloors)
    ensures forall v :: |less(v)| == |floors(v)|
    ensures forall v, g :: 0 <= g < |less(v)| ==>
      less(v)[g] == if v == None && g == generation && snapshot < floors(v)[g] then snapshot else floors(v)[g]
  {
    (v: Variant) =>
      if v == None && generation < |floors(v)| && snapshot < floors(v)[generation]
      then floors(v)[generation := snapshot] else floors(v)
  }

  lemma LoweredFloors(s: State, floors: AllFloors, generation: nat, snapshot: nat, v: Variant)
    requires Floors(s, floors(v)) && IngestHarmless(s, generation, snapshot)
    ensures Floors(Ingested(s, generation, snapshot), Lowered(floors, generation, snapshot)(v))
  {
    hide Lowered;
  }

  lemma LoweredEntries(s: State, floors: AllFloors, generation: nat, snapshot: nat, k: Key)
    requires Floors(s, floors(k.variant)) && IngestHarmless(s, generation, snapshot) && snapshot <= s.version
    requires k in s.entries ==> EntryOk(floors(k.variant), k.generation, s.entries[k], s.version)
    ensures var t := Ingested(s, generation, snapshot);
            k in t.entries ==> EntryOk(Lowered(floors, generation, snapshot)(k.variant), k.generation, t.entries[k], t.version)
  {
    hide Lowered;
  }

  lemma HarmlessIngestKeepsSound(s: State, generation: nat, snapshot: nat)
    requires Sound(s) && snapshot <= s.version && IngestHarmless(s, generation, snapshot)
    ensures Sound(Ingested(s, generation, snapshot))
  {
    var floors: AllFloors :| Inv(s, floors);
    var t := Ingested(s, generation, snapshot);
    var less := Lowered(floors, generation, snapshot);
    LoweredReaders(s, floors, less, generation, snapshot);
    hide Floors, EntryOk, ReaderOk, IngestHarmless, Lowered;
    forall v ensures Floors(t, less(v)) {
      LoweredFloors(s, floors, generation, snapshot, v);
    }
    forall k | k in t.entries ensures EntryOk(less(k.variant), k.generation, t.entries[k], t.version) {
      LoweredEntries(s, floors, generation, snapshot, k);
    }
    assert Inv(t, less);
  }

  /** Lower floors bother only readers about to look under the lowered key. */
  lemma LoweredReaders(s: State, floors: AllFloors, less: AllFloors, generation: nat, snapshot: nat)
    requires Inv(s, floors) && IngestHarmless(s, generation, snapshot)
    requires forall v :: |less(v)| == |floors(v)|
    requires forall v, g :: 0 <= g < |less(v)| ==>
      less(v)[g] == floors(v)[g] || (v == None && g == generation && less(v)[g] == snapshot < floors(v)[g])
    ensures forall r :: 0 <= r < |s.readers| ==> ReaderOk(Ingested(s, generation, snapshot), less, s.readers[r])
  {
    hide Inv;
    forall r | 0 <= r < |s.readers| ensures ReaderOk(Ingested(s, generation, snapshot), less, s.readers[r]) {
      ReaderOfInv(s, floors, r);
      assert NotMisled(s.readers[r], generation, snapshot);
    }
  }

  lemma ReaderOfInv(s: State, floors: AllFloors, r: nat)
    requires Inv(s, floors) && r < |s.readers|
    ensures ReaderOk(s, floors, s.readers[r])
  {
  }

  /** Whenever the store happens, and however far the counter has moved since it was
      read, answers stay fresh exactly when that is harmless. */
  lemma IngestIsSafeIff(s: State, generation: nat, snapshot: nat)
    requires Sound(s) && snapshot <= s.version
    ensures StaysFresh(Ingested(s, generation, snapshot)) <==> IngestHarmless(s, generation, snapshot)
  {
    var t := Ingested(s, generation, snapshot);
    if IngestHarmless(s, generation, snapshot) {
      HarmlessIngestKeepsSound(s, generation, snapshot);
      forall steps, u | Leads(t, steps, u) ensures Fresh(u) {
        RunKeepsSound(t, steps, u);
        SoundIsFresh(u);
      }
    } else if r: nat :| r < |s.readers| && !NotMisled(s.readers[r], generation, snapshot) {
      var u := Next(t, Lookup(r));
      assert u.readers[r] == Done(s.readers[r].need, snapshot);
      NotFreshNow(u);
      StepBack(t, Lookup(r));
    } else {
      var floors: AllFloors :| Inv(s, floors);
      assert Floors(s, floors(None));
      CounterCatchesUp(t, Key(generation, None));
    }
  }

  /** That does happen too: the consumer's host is changed, and the change invalidated,
      between the consumer's commit and its look at the counter. */
  lemma HarmfulIngestIsReachable()
    ensures exists steps, s :: Leads(INITIAL, steps, s) && s.version >= 1 && !StaysFresh(Ingested(s, Current(s), 1))
  {
    var s1 := Next(INITIAL, WriteDb);
    var s2 := Next(s1, WriteDb);
    assert 2 in s2.uninvalidated;
    var s3 := Next(s2, Incr(2));
    assert Leads(s3, [], s3);
    LeadsFrom(s2, Incr(2), [], s3);
    LeadsFrom(s1, WriteDb, [Incr(2)] + [], s3);
    LeadsFrom(INITIAL, WriteDb, [WriteDb] + ([Incr(2)] + []), s3);
    OutdatedHit(Ingested(s3, Current(s3), 1), Key(Current(s3), None));
  }
}
