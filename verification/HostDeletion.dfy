/** Deletion of selected hosts chunk by chunk, each chunk a transaction, with a signal
    that can interrupt it after any host and deadlocks that can undo a chunk; and the
    reaper's loop around it. */
module HostDeletion {
  import opened Common

  datatype Host = Host(id: int, org: int, data: int)
  datatype Assoc = Assoc(org: int, hostId: int, group: int)
  datatype Tables = Tables(hosts: set<Host>, assocs: set<Assoc>)

  datatype Outcome = Done | Interrupted | NoKafka | Deadlocked

  /** What a chunk's transaction ends in: committed, handed out but undone at the
      commit, or undone before any message was sent. */
  datatype ChunkEnd = Committed(batch: seq<Host>) | Undone(batch: seq<Host>) | Signalled | Victim

  /** Where a chunk's transaction is chosen as the victim of a deadlock: nowhere, when
      deleting its k-th host, or when it is committed. */
  datatype Fault = NoFault | AtDelete(k: nat) | AtCommit

  function Selected(t: Tables, select: Host -> bool): set<Host> {
    set h | h in t.hosts && select(h)
  }

  /* ---------- what deleting means ---------- */

  /** The association rows that go with a host: those deleted in the caller's
      organisation and those of the host's own organisation, by the cascade. */
  predicate GoesWith(a: Assoc, h: Host, identity: Option<int>) {
    a.hostId == h.id && (a.org == h.org || identity == Some(a.org))
  }

  predicate GoesWithAny(a: Assoc, hs: seq<Host>, identity: Option<int>) {
    exists h :: h in hs && GoesWith(a, h, identity)
  }

  function Without(t: Tables, hs: seq<Host>, identity: Option<int>): Tables {
    Tables(t.hosts - Elements(hs), set a | a in t.assocs && !GoesWithAny(a, hs, identity))
  }

  lemma WithoutTwice(t: Tables, hs: seq<Host>, more: seq<Host>, identity: Option<int>)
    ensures Without(Without(t, hs, identity), more, identity) == Without(t, hs + more, identity)
  {
    assert Elements(hs + more) == Elements(hs) + Elements(more);
    assert forall a :: GoesWithAny(a, hs + more, identity) <==> GoesWithAny(a, hs, identity) || GoesWithAny(a, more, identity);
  }

  /** Every association belongs to a host of its organisation. */
  predicate References(t: Tables) {
    forall a :: a in t.assocs ==> exists h :: h in t.hosts && h.id == a.hostId && h.org == a.org
  }

  predicate UniqueIds(hosts: set<Host>) {
    forall g, h :: g in hosts && h in hosts && g.id == h.id ==> g == h
  }

  /** Whoever asks for it, deletion leaves no association behind that names a deleted
      host and touches none of another host. */
  lemma DeletionKeepsReferences(t: Tables, hs: seq<Host>, identity: Option<int>)
    requires References(t) && UniqueIds(t.hosts) && Elements(hs) <= t.hosts
    ensures References(Without(t, hs, identity))
    ensures forall a :: a in t.assocs ==>
      (a in Without(t, hs, identity).assocs <==> forall h :: h in hs ==> h.id != a.hostId)
  {
    assert forall h :: h in hs ==> h in Elements(hs);
    forall a | a in t.assocs
      ensures a in Without(t, hs, identity).assocs <==> forall h :: h in hs ==> h.id != a.hostId
    {
      var owner :| owner in t.hosts && owner.id == a.hostId && owner.org == a.org;
      assert owner in hs ==> GoesWith(a, owner, identity);
    }
  }

  /* ---------- the interrupting signal ---------- */

  /** The signal stays silent for n polls. */
  predicate Quiet(signal: nat -> bool, from: nat, n: nat) {
    forall i: nat :: from <= i < from + n ==> !signal(i)
  }

  lemma QuietOn(signal: nat -> bool, from: nat, n: nat, m: nat)
    requires Quiet(signal, from, n) && Quiet(signal, from + n, m)
    ensures Quiet(signal, from, n + m)
  {
  }

  lemma NoPolls(signal: nat -> bool, from: nat)
    ensures Quiet(signal, from, 0)
  {
  }

  /** Hosts that stay deleted when the signal comes with the p-th host: those of the
      whole chunks before it. */
  function Kept(p: nat, chunk: nat): nat
    requires p >= 1 && chunk >= 1
  {
    (p - 1) - (p - 1) % chunk
  }

  /** `now` is `before` without exactly the selected hosts in `gone`, each named once. */
  predicate DeletedFrom(before: Tables, now: Tables, gone: seq<Host>, select: Host -> bool, identity: Option<int>) {
    && now == Without(before, gone, identity)
    && Distinct(gone) && Elements(gone) <= Selected(before, select)
    && |Selected(now, select)| == |Selected(before, select)| - |gone|
  }

  /** The same, row by row: exactly the hosts named are gone, all of them selected ones,
      and with them exactly their associations. */
  ghost predicate GoneExactly(before: Tables, now: Tables, gone: seq<Host>, select: Host -> bool, identity: Option<int>) {
    && (forall i, j :: 0 <= i < j < |gone| ==> gone[i] != gone[j])
    && (forall h :: h in gone ==> h in before.hosts && select(h))
    && (forall h :: h in now.hosts <==> h in before.hosts && h !in gone)
    && (forall a :: a in now.assocs <==>
          a in before.assocs && forall h :: h in gone && h.id == a.hostId ==> a.org != h.org && identity != Some(a.org))
  }

  lemma DeletedMeans(before: Tables, now: Tables, gone: seq<Host>, select: Host -> bool, identity: Option<int>)
    requires DeletedFrom(before, now, gone, select, identity)
    ensures GoneExactly(before, now, gone, select, identity)
    ensures Selected(now, select) == {} <==> forall h :: h in now.hosts ==> !select(h)
  {
    assert forall h :: h in now.hosts && select(h) ==> h in Selected(now, select);
    assert forall h :: h in gone <==> h in Elements(gone);
  }

  lemma {:induction false} NoSmallerQuotient(m: nat, n: nat, chunk: nat, d: nat, e: nat)
    requires m * chunk + d == n * chunk + e && d < chunk
    ensures m >= n
  {
    if n > 0 {
      var n', m' := n - 1, m - 1;
      assert n * chunk == n' * chunk + chunk && m * chunk == m' * chunk + chunk;
      if m > 0 {
        NoSmallerQuotient(m', n', chunk, d, e);
      }
    }
  }

  lemma RemainderOf(n: nat, chunk: nat, d: nat)
    requires d < chunk
    ensures (n * chunk + d) % chunk == d
  {
    var x := n * chunk + d;
    var q := x / chunk;
    assert q * chunk + x % chunk == x;
    NoSmallerQuotient(n, q, chunk, d, x % chunk);
    NoSmallerQuotient(q, n, chunk, x % chunk, d);
  }

  predicate WholeChunks(n: nat, chunk: nat)
    requires chunk >= 1
  {
    n % chunk == 0
  }

  lemma OneChunkMore(n: nat, chunk: nat)
    requires chunk >= 1 && WholeChunks(n, chunk)
    ensures WholeChunks(n + chunk, chunk)
  {
    var q := n / chunk;
    assert n + chunk == (q + 1) * chunk + 0;
    RemainderOf(q + 1, chunk, 0);
  }

  /** It is the only count of whole chunks that fits. */
  lemma KeptIsWholeChunks(p: nat, chunk: nat, n: nat)
    requires p >= 1 && chunk >= 1
    ensures n == Kept(p, chunk) <==> WholeChunks(n, chunk) && n < p <= n + chunk
  {
    var k := Kept(p, chunk);
    var q := (p - 1) / chunk;
    assert k == q * chunk + 0;
    RemainderOf(q, chunk, 0);
    if WholeChunks(n, chunk) && n < p <= n + chunk {
      var m := n / chunk;
      assert n == m * chunk;
      RemainderOf(m, chunk, p - 1 - n);
    }
  }

  lemma Appended(s: seq<Host>, h: Host)
    requires Distinct(s) && h !in Elements(s)
    ensures Distinct(s + [h]) && Elements(s + [h]) == Elements(s) + {h}
  {
  }

  function Min(a: nat, b: nat): nat { if a < b then a else b }

  /* ---------- the program ---------- */

  class Session {
    var db: Tables
    var committed: Tables
    /** Hosts a deletion message was sent for. */
    var messages: seq<Host>
    var polls: nat
    var checks: nat
    var chunks: nat
    const signal: nat -> bool
    const kafka: nat -> bool
    const fault: nat -> Fault

    constructor (tables: Tables, signal: nat -> bool, kafka: nat -> bool, fault: nat -> Fault)
      ensures db == committed == tables && messages == [] && polls == 0 && checks == 0 && chunks == 0
      ensures this.signal == signal && this.kafka == kafka && this.fault == fault
    {
      db, committed, messages, polls, checks, chunks := tables, tables, [], 0, 0, 0;
      this.signal, this.kafka, this.fault := signal, kafka, fault;
    }

    /** query.limit(n): some of the selected hosts, in no particular order. */
    method Limit(select: Host -> bool, n: nat) returns (page: seq<Host>)
      ensures Distinct(page) && Elements(page) <= Selected(db, select)
      ensures |page| == Min(n, |Selected(db, select)|)
    {
      page := [];
      var rest := Selected(db, select);
      while |page| < n && rest != {}
        invariant Distinct(page) && |page| <= n
        invariant Elements(page) * rest == {} && Elements(page) + rest == Selected(db, select)
        invariant |page| + |rest| == |Selected(db, select)|
        decreases rest
      {
        var h :| h in rest;
        Appended(page, h);
        page, rest := page + [h], rest - {h};
      }
    }

    method DeleteHost(h: Host, identity: Option<int>)
      modifies this`db
      ensures db == Without(old(db), [h], identity)
    {
      var org := if identity.Some? then identity.value else h.org;
      var left := set a | a in db.assocs && !(a.org == org && a.hostId == h.id);
      // the cascade of the hosts table
      left := set a | a in left && !(a.org == h.org && a.hostId == h.id);
      db := Tables(db.hosts - {h}, left);
      assert forall a :: GoesWithAny(a, [h], identity) <==> GoesWith(a, h, identity) by {
        assert h in [h];
      }
      assert Elements([h]) == {h};
    }

    method Interrupt() returns (b: bool)
      modifies this`polls
      ensures polls == old(polls) + 1 && b == signal(old(polls))
    {
      b := signal(polls);
      polls := polls + 1;
    }

    /** One chunk; or the signal after one of its hosts, the last included; or the
        deadlock at one of its hosts. */
    method DeleteChunk(select: Host -> bool, chunk: nat, identity: Option<int>, fault: Fault)
      returns (r: ChunkEnd)
      modifies this`db, this`polls
      ensures match r
          case Committed(batch) =>
            && Distinct(batch) && Elements(batch) <= Selected(old(db), select)
            && |batch| == Min(chunk, |Selected(old(db), select)|)
            && db == Without(old(db), batch, identity)
            && polls == old(polls) + |batch| && Quiet(signal, old(polls), |batch|)
          case Undone(_) => false
          case Signalled =>
            && old(polls) < polls <= old(polls) + Min(chunk, |Selected(old(db), select)|)
            && signal((polls - 1) as nat) && Quiet(signal, old(polls), polls - 1 - old(polls))
          case Victim =>
            && old(polls) <= polls < old(polls) + Min(chunk, |Selected(old(db), select)|)
            && fault == AtDelete((polls - old(polls)) as nat)
    {
      var page := Limit(select, chunk);
      assert Without(db, [], identity) == db;
      for i := 0 to |page|
        invariant db == Without(old(db), page[..i], identity)
        invariant polls == old(polls) + i && Quiet(signal, old(polls), i)
      {
        if fault == AtDelete(i) {
          return Victim;
        }
        DeleteHost(page[i], identity);
        WithoutTwice(old(db), page[..i], [page[i]], identity);
        assert page[..i] + [page[i]] == page[..i + 1];
        var stop := Interrupt();
        if stop {
          return Signalled;
        }
      }
      assert page[..|page|] == page;
      r := Committed(page);
    }

    method SendMessages(batch: seq<Host>)
      modifies this`messages
      ensures messages == old(messages) + batch
    {
      for i := 0 to |batch|
        invariant messages == old(messages) + batch[..i]
      {
        messages := messages + [batch[i]];
      }
      assert batch[..|batch|] == batch;
    }

    /** One pass of the loop, in its own transaction: delete a chunk, announce it, hand
        it out, and commit. */
    method GuardedChunk(select: Host -> bool, chunk: nat, identity: Option<int>) returns (r: ChunkEnd)
      requires db == committed
      modifies this
      ensures db == committed && chunks == old(chunks) + 1 && checks == old(checks)
      ensures db == if r.Committed? then Without(old(db), r.batch, identity) else old(db)
      ensures messages == if r.Committed? || r.Undone? then old(messages) + r.batch else old(messages)
      ensures r.Undone? ==> fault(old(chunks)) == AtCommit
      ensures r.Committed? ==> fault(old(chunks)) != AtCommit
      ensures r.Victim? ==> fault(old(chunks)).AtDelete?
      ensures r.Committed? || r.Undone? ==>
        && Distinct(r.batch) && Elements(r.batch) <= Selected(old(db), select)
        && |r.batch| == Min(chunk, |Selected(old(db), select)|)
        && polls == old(polls) + |r.batch| && Quiet(signal, old(polls), |r.batch|)
      ensures r.Signalled? ==>
        && old(polls) < polls <= old(polls) + Min(chunk, |Selected(old(db), select)|)
        && signal((polls - 1) as nat) && Quiet(signal, old(polls), polls - 1 - old(polls))
    {
      hide Without, Selected, Elements, Distinct, Quiet;
      var danger := fault(chunks);
      chunks := chunks + 1;
      r := DeleteChunk(select, chunk, identity, danger);
      if r.Committed? {
        SendMessages(r.batch);
        if danger == AtCommit {
          r := Undone(r.batch);
        }
      }
      if r.Committed? {
        committed := db;
      } else {
        db := committed;
      }
    }

    /** Exactly the hosts of `gone`, once each, are deleted for good. */
    ghost predicate Deleted(before: Tables, gone: seq<Host>, select: Host -> bool, identity: Option<int>)
      reads this
    {
      db == committed && DeletedFrom(before, db, gone, select, identity)
    }

    /** A generator read to its end. Uninterrupted it deletes every selected host; a
        signal with the p-th host takes back the whole chunk of that host, and only
        that. Each host handed out is gone, was handed out once and has one message, and
        no other host has any; except that a chunk whose commit falls to a deadlock has
        been handed out and announced, and is still there. */
    method DeleteHosts(select: Host -> bool, chunk: nat, identity: Option<int>)
      returns (yielded: seq<Host>, outcome: Outcome, ghost kept: seq<Host>, ghost lost: seq<Host>)
      requires chunk >= 1 && db == committed
      modifies this
      ensures messages == old(messages) + yielded
      ensures yielded == kept + lost && Deleted(old(db), kept, select, identity)
      // row by row
      ensures GoneExactly(old(db), db, kept, select, identity)
      ensures outcome == Done <==> forall h :: h in db.hosts ==> !select(h)
      ensures forall h :: h in lost ==> h in db.hosts && select(h)
      ensures Distinct(lost) && Elements(lost) <= Selected(db, select)
      ensures outcome == Done <==> Selected(db, select) == {}
      ensures outcome == Done || outcome == NoKafka ==> polls == old(polls) + |yielded| && Quiet(signal, old(polls), |yielded|)
      ensures outcome == Interrupted ==>
        && old(polls) < polls <= old(polls) + |Selected(old(db), select)|
        && signal((polls - 1) as nat) && Quiet(signal, old(polls), polls - 1 - old(polls))
        && |yielded| == Kept(polls - old(polls), chunk)
      ensures outcome == NoKafka ==> WholeChunks(|yielded|, chunk) && checks > 0 && !kafka((checks - 1) as nat)
      ensures old(chunks) <= chunks
      ensures outcome != Interrupted ==> NoneAtCommit(fault, old(chunks), if lost == [] then chunks else chunks - 1)
      ensures lost != [] ==> chunks > old(chunks) && fault((chunks - 1) as nat) == AtCommit
      ensures outcome == Deadlocked ==> chunks > old(chunks) && fault((chunks - 1) as nat) != NoFault
      ensures outcome != Deadlocked ==> lost == [] && kept == yielded
    {
      hide Kept, Without, Selected, Elements, Distinct, Quiet, WholeChunks, NoneAtCommit, DeletedFrom, GoneExactly;
      NoPolls(signal, polls);
      NoChunks(fault, chunks);
      yielded, kept, lost := [], [], [];
      NothingYet(db, select, identity);
      while Selected(db, select) != {}
        invariant Deleted(old(db), yielded, select, identity) && messages == old(messages) + yielded
        invariant |Selected(db, select)| == |Selected(old(db), select)| - |yielded|
        invariant polls == old(polls) + |yielded| && Quiet(signal, old(polls), |yielded|)
        invariant Selected(db, select) != {} ==> WholeChunks(|yielded|, chunk)
        invariant old(chunks) <= chunks && NoneAtCommit(fault, old(chunks), chunks)
        decreases |Selected(db, select)|
      {
        DeletedMeans(old(db), db, yielded, select, identity);
        var available := kafka(checks);
        checks := checks + 1;
        if !available {
          return yielded, NoKafka, yielded, [];
        }
        OneMoreChunk(fault, old(chunks), chunks);
        ghost var from, before := polls, db;
        var r := GuardedChunk(select, chunk, identity);
        match r {
          case Committed(batch) =>
            QuietOn(signal, old(polls), |yielded|, |batch|);
            OneChunkMore(|yielded|, chunk);
            DeletedInTurn(old(db), before, yielded, batch, select, identity);
            AppendTwice(old(messages), yielded, batch);
            yielded := yielded + batch;
          case Undone(batch) =>
            AreSelected(db, batch, select);
            AppendTwice(old(messages), yielded, batch);
            return yielded + batch, Deadlocked, yielded, batch;
          case Signalled =>
            QuietOn(signal, old(polls), |yielded|, polls - 1 - from);
            KeptIsWholeChunks(polls - old(polls), chunk, |yielded|);
            return yielded, Interrupted, yielded, [];
          case Victim =>
            return yielded, Deadlocked, yielded, [];
        }
      }
      DeletedMeans(old(db), db, yielded, select, identity);
      outcome, kept := Done, yielded;
    }

    /** The reaper. Its loop stops after at most two rounds; its count of hosts still
        to delete is right exactly when no signal came, or came within the first chunk:
        an interrupted round counts nothing, though its earlier chunks are gone. */
    method Reap(select: Host -> bool, chunk: nat) returns (r: Result<int, Outcome>, rounds: nat)
      requires chunk >= 1 && db == committed
      modifies this
      ensures rounds <= 2
      ensures r.Ok? ==> ReapedAsCounted(signal, old(polls), |Selected(old(db), select)|, chunk, |Selected(db, select)|, r.value)
      ensures r.Err? ==> (r.error == NoKafka || r.error == Deadlocked) && Selected(db, select) != {}
      ensures exists gone :: Deleted(old(db), gone, select, None) && (r.Ok? ==> messages == old(messages) + gone)
      ensures exists gone :: GoneExactly(old(db), db, gone, select, None) && (r.Ok? ==> messages == old(messages) + gone)
    {
      hide Kept, Without, Distinct, Quiet, ReapedAsCounted, GoneExactly;
      var total := |Selected(db, select)|;
      var processed, remaining := chunk, total;
      rounds := 0;
      NothingYet(db, select, None);
      ghost var gone: seq<Host> := [];
      while processed == chunk
        invariant Deleted(old(db), gone, select, None) && messages == old(messages) + gone
        invariant rounds == 0 ==> processed == chunk && remaining == total && polls == old(polls) && gone == []
        invariant rounds > 0 && processed == chunk ==> rounds == 1 && Selected(db, select) == {}
        invariant rounds > 0 ==> ReapedAsCounted(signal, old(polls), total, chunk, |Selected(db, select)|, remaining)
        invariant rounds <= 2
        decreases 2 - rounds
      {
        NothingYet(db, select, None);
        var yielded, outcome, kept, lost := DeleteHosts(select, chunk, None);
        if rounds == 0 {
          gone := kept;
        } else {
          NothingMore(yielded);
        }
        rounds := rounds + 1;
        DeletedMeans(old(db), db, gone, select, None);
        if outcome == NoKafka || outcome == Deadlocked {
          return Err(outcome), rounds;
        }
        if outcome == Interrupted {
          InterruptedCount(signal, old(polls), total, chunk, polls - old(polls));
        } else {
          UninterruptedCount(signal, old(polls), total, chunk);
        }
        processed := if outcome == Interrupted then 0 else |yielded|;
        remaining := remaining - processed;
      }
      DeletedMeans(old(db), db, gone, select, None);
      r := Ok(remaining);
    }
  }

  /** `left` hosts are left of `total` and the reaper believes `counted` are. */
  predicate ReapedAsCounted(signal: nat -> bool, from: nat, total: nat, chunk: nat, left: nat, counted: int)
    requires chunk >= 1
  {
    && (counted == left <==> Quiet(signal, from, total) || !Quiet(signal, from, Min(total, chunk)))
    && (Quiet(signal, from, total) <==> left == 0)
  }

  lemma UninterruptedCount(signal: nat -> bool, from: nat, total: nat, chunk: nat)
    requires chunk >= 1
    ensures Quiet(signal, from, total) ==> ReapedAsCounted(signal, from, total, chunk, 0, 0)
  {
  }

  lemma InterruptedCount(signal: nat -> bool, from: nat, total: nat, chunk: nat, p: nat)
    requires chunk >= 1 && 1 <= p <= total && signal(from + p - 1) && Quiet(signal, from, p - 1)
    ensures Kept(p, chunk) < total
    ensures ReapedAsCounted(signal, from, total, chunk, total - Kept(p, chunk), total)
  {
    KeptIsWholeChunks(p, chunk, Kept(p, chunk));
    assert !Quiet(signal, from, total);
    if p <= chunk {
      assert WholeChunks(0, chunk);
      KeptIsWholeChunks(p, chunk, 0);
    }
  }

  lemma NothingMore(s: seq<Host>)
    ensures s == [] <==> Elements(s) == {}
  {
    if s != [] {
      assert s[0] in Elements(s);
    }
  }

  /** No chunk of these falls to a deadlock at its commit. */
  predicate NoneAtCommit(fault: nat -> Fault, from: nat, to: int) {
    forall i: nat :: from <= i < to ==> fault(i) != AtCommit
  }

  lemma AreSelected(t: Tables, batch: seq<Host>, select: Host -> bool)
    requires Elements(batch) <= Selected(t, select)
    ensures forall h :: h in batch ==> h in t.hosts && select(h)
  {
    assert forall h :: h in batch ==> h in Elements(batch);
  }

  lemma AppendTwice(a: seq<Host>, b: seq<Host>, c: seq<Host>)
    ensures (a + b) + c == a + (b + c)
  {}

  lemma NoChunks(fault: nat -> Fault, from: nat)
    ensures NoneAtCommit(fault, from, from)
  {}

  lemma OneMoreChunk(fault: nat -> Fault, from: nat, to: nat)
    requires NoneAtCommit(fault, from, to) && from <= to
    ensures NoneAtCommit(fault, from, to + 1) <==> fault(to) != AtCommit
  {}

  lemma NothingYet(t: Tables, select: Host -> bool, identity: Option<int>)
    ensures Without(t, [], identity) == t && Distinct<Host>([]) && Elements<Host>([]) == {}
    ensures DeletedFrom(t, t, [], select, identity)
    ensures forall chunk: nat :: chunk >= 1 ==> WholeChunks(0, chunk)
  {
  }

  lemma DeletedInTurn(before: Tables, now: Tables, gone: seq<Host>, batch: seq<Host>, select: Host -> bool, identity: Option<int>)
    requires DeletedFrom(before, now, gone, select, identity)
    requires Distinct(batch) && Elements(batch) <= Selected(now, select)
    ensures DeletedFrom(before, Without(now, batch, identity), gone + batch, select, identity)
    ensures |Selected(Without(now, batch, identity), select)| == |Selected(now, select)| - |batch|
  {
    WithoutTwice(before, gone, batch, identity);
    forall i, j | 0 <= i < |gone| && 0 <= j < |batch| ensures gone[i] != batch[j] {
      assert batch[j] in Elements(batch) && gone[i] in Elements(gone);
    }
    assert Elements(gone + batch) == Elements(gone) + Elements(batch);
    DistinctSize(batch);
    assert Selected(Without(now, batch, identity), select) == Selected(now, select) - Elements(batch);
  }
}
