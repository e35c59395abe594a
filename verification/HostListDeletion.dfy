/** Deleting listed hosts on request: chunked deletion, tried again when a deadlock
    strikes, with the ids handed out so far collected over all attempts. */
module HostListDeletion {
  import opened Common
  import opened HostDeletion

  const MAX_ATTEMPTS := 3

  datatype Failure = Conflict | NoKafkaServer

  function Ids(hosts: set<Host>): set<int> {
    set h | h in hosts :: h.id
  }

  /** What holds between attempts, when hosts `gone` are deleted for good and `sent`
      have been handed out and announced. */
  ghost predicate Attempted(s: Session, before: Tables, gone: seq<Host>, sent: seq<Host>, from: nat,
                            select: Host -> bool, identity: Option<int>)
    reads s
  {
    && s.Deleted(before, gone, select, identity)
    && Elements(gone) <= Elements(sent) <= Selected(before, select)
    && from <= s.chunks
    && if NoneAtCommit(s.fault, from, s.chunks) then gone == sent else |gone| < |sent|
  }

  lemma NothingAttempted(s: Session, select: Host -> bool, identity: Option<int>)
    requires s.db == s.committed
    ensures Attempted(s, s.db, [], [], s.chunks, select, identity)
  {
    NothingYet(s.db, select, identity);
    NoChunks(s.fault, s.chunks);
  }

  lemma NoneInTurn(fault: nat -> Fault, a: nat, b: nat, c: nat)
    requires a <= b <= c
    ensures NoneAtCommit(fault, a, c) <==> NoneAtCommit(fault, a, b) && NoneAtCommit(fault, b, c)
  {}

  lemma ElementsJoin(a: seq<Host>, b: seq<Host>)
    ensures Elements(a + b) == Elements(a) + Elements(b)
  {}

  lemma SelectedShrinks(t: Tables, gone: seq<Host>, select: Host -> bool, identity: Option<int>)
    ensures Selected(Without(t, gone, identity), select) == Selected(t, select) - Elements(gone)
  {}

  /** All were announced; each once unless something was lost on the way. */
  lemma AllAnnounced(before: Tables, gone: seq<Host>, sent: seq<Host>, select: Host -> bool, identity: Option<int>)
    requires Distinct(gone) && Elements(gone) <= Elements(sent) <= Selected(before, select)
    requires Selected(Without(before, gone, identity), select) == {} && (gone == sent || |gone| < |sent|)
    ensures Elements(gone) == Elements(sent) == Selected(before, select)
    ensures Distinct(sent) <==> gone == sent
  {
    SelectedShrinks(before, gone, select, identity);
    assert forall h :: h in Selected(before, select) && h !in Elements(gone) ==> h in Selected(before, select) - Elements(gone);
    DistinctSize(gone);
    if Distinct(sent) {
      DistinctSize(sent);
    }
  }

  /** What one attempt adds: `kept` for good, and the `lost` chunk for nothing. */
  lemma AttemptAdds(before: Tables, gone: seq<Host>, sent: seq<Host>, kept: seq<Host>, lost: seq<Host>,
                    select: Host -> bool, identity: Option<int>)
    requires Elements(gone) <= Elements(sent) <= Selected(before, select)
    requires Elements(gone + kept) <= Selected(before, select)
    requires Elements(lost) <= Selected(Without(before, gone + kept, identity), select)
    requires gone == sent || |gone| < |sent|
    ensures Elements(gone + kept) <= Elements(sent + (kept + lost)) <= Selected(before, select)
    ensures if gone == sent && lost == [] then gone + kept == sent + (kept + lost) else |gone + kept| < |sent + (kept + lost)|
  {
    ElementsJoin(gone, kept);
    ElementsJoin(kept, lost);
    ElementsJoin(sent, kept + lost);
    SelectedShrinks(before, gone + kept, select, identity);
    assert lost == [] ==> kept + lost == kept;
  }

  lemma LastChunk(fault: nat -> Fault, at: nat, to: nat, lost: seq<Host>)
    requires at <= to && NoneAtCommit(fault, at, if lost == [] then to else to - 1)
    requires lost != [] ==> to > at && fault((to - 1) as nat) == AtCommit
    ensures NoneAtCommit(fault, at, to) <==> lost == []
    ensures to > at && fault((to - 1) as nat) == AtCommit ==> lost != []
  {}

  lemma FirstLost(lost: seq<Host>)
    ensures lost != [] ==> lost[0] in Elements(lost)
  {}

  lemma IdsSize(hosts: set<Host>)
    requires UniqueIds(hosts)
    ensures |Ids(hosts)| == |hosts|
  {
    KeysSize(hosts, (h: Host) => h.id, Ids(hosts));
  }

  /** One attempt, continued from the earlier ones. */
  method Attempt(s: Session, select: Host -> bool, chunk: nat, identity: Option<int>,
                 ghost before: Tables, ghost gone: seq<Host>, ghost sent: seq<Host>, ghost from: nat)
    returns (yielded: seq<Host>, outcome: Outcome, ghost kept: seq<Host>)
    requires chunk >= 1 && forall i :: !s.signal(i)
    requires Attempted(s, before, gone, sent, from, select, identity)
    modifies s
    ensures Attempted(s, before, gone + kept, sent + yielded, from, select, identity)
    ensures s.messages == old(s.messages) + yielded
    ensures outcome == Done <==> Selected(s.db, select) == {}
    ensures outcome == Deadlocked ==> s.chunks > from && s.fault((s.chunks - 1) as nat) != NoFault
    ensures old(s.chunks) <= s.chunks && (outcome == Deadlocked ==> s.chunks > old(s.chunks))
    ensures outcome == NoKafka ==> s.checks > 0 && !s.kafka((s.checks - 1) as nat)
    ensures outcome != Interrupted
    // the chunk lost last is announced and still there
    ensures outcome == Deadlocked && s.fault((s.chunks - 1) as nat) == AtCommit ==>
      exists h :: h in yielded && h in Selected(s.db, select)
  {
    hide Distinct, Elements, Selected, Without, NoneAtCommit;
    ghost var at, now := s.chunks, s.db;
    ghost var lost;
    yielded, outcome, kept, lost := s.DeleteHosts(select, chunk, identity);
    DeletedInTurn(before, now, gone, kept, select, identity);
    LastChunk(s.fault, at, s.chunks, lost);
    NoneInTurn(s.fault, from, at, s.chunks);
    AttemptAdds(before, gone, sent, kept, lost, select, identity);
    FirstLost(lost);
    assert yielded == kept + lost;
    assert forall h :: h in lost ==> h in yielded;
  }

  /** The messages sent since `s.messages` was `before`. */
  function Since(s: Session, before: seq<Host>): seq<Host>
    reads s
  {
    if |before| <= |s.messages| then s.messages[|before|..] else []
  }

  lemma SentSince(before: seq<Host>, sent: seq<Host>)
    ensures (before + sent)[|before|..] == sent
  {}

  lemma IdsJoin(a: seq<Host>, b: seq<Host>)
    ensures Ids(Elements(a + b)) == Ids(Elements(a)) + Ids(Elements(b))
  {
    ElementsJoin(a, b);
  }

  method Collect(ids: set<int>, yielded: seq<Host>) returns (all: set<int>)
    ensures all == ids + Ids(Elements(yielded))
  {
    all := ids;
    for i := 0 to |yielded|
      invariant all == ids + Ids(Elements(yielded[..i]))
    {
      assert yielded[..i + 1] == yielded[..i] + [yielded[i]];
      IdsJoin(yielded[..i], [yielded[i]]);
      assert Elements([yielded[i]]) == {yielded[i]};
      all := all + {yielded[i].id};
    }
    assert yielded[..|yielded|] == yielded;
  }

  /** When it succeeds, all hosts asked for are deleted, their number is returned, and
      each has a message: exactly one unless some chunk fell to a deadlock at its
      commit. When the attempts are used up, the chunk lost last is announced as
      deleted although it is not. */
  method DeleteHostList(s: Session, select: Host -> bool, chunk: nat, identity: Option<int>)
    returns (r: Result<nat, Failure>, ids: set<int>, ghost gone: seq<Host>, ghost struck: seq<nat>)
    requires chunk >= 1 && s.db == s.committed && (forall i :: !s.signal(i)) && UniqueIds(Selected(s.db, select))
    modifies s
    ensures old(s.messages) <= s.messages && ids == Ids(Elements(Since(s, old(s.messages))))
    ensures Attempted(s, old(s.db), gone, Since(s, old(s.messages)), old(s.chunks), select, identity)
    ensures r.Ok? <==> Selected(s.db, select) == {}
    ensures r.Ok? ==>
      && r.value == |Selected(old(s.db), select)|
      && Elements(Since(s, old(s.messages))) == Selected(old(s.db), select)
      && (Distinct(Since(s, old(s.messages))) <==> NoneAtCommit(s.fault, old(s.chunks), s.chunks))
    ensures r == Err(Conflict) ==> s.chunks > old(s.chunks)
    // row by row
    ensures GoneExactly(old(s.db), s.db, gone, select, identity)
    ensures r.Ok? <==> forall h :: h in s.db.hosts ==> !select(h)
    // a first and a second deadlock are tried again, a third is not
    ensures |struck| <= 3 && (r == Err(Conflict) <==> |struck| == 3)
    ensures Struck(s.fault, struck, old(s.chunks), s.chunks)
    ensures r == Err(NoKafkaServer) ==> s.checks > 0 && !s.kafka((s.checks - 1) as nat)
    ensures r == Err(Conflict) && s.fault((s.chunks - 1) as nat) == AtCommit ==>
      exists h :: h in Since(s, old(s.messages)) && h in Selected(s.db, select)
  {
    hide Distinct, Elements, Selected, Without, NoneAtCommit, Ids, Attempted, UniqueIds, GoneExactly, Struck;
    struck := [];
    NotStruck(s.fault, s.chunks);
    ids := {};
    ghost var sent: seq<Host> := [];
    gone := [];
    NothingAttempted(s, select, identity);
    NothingSent();
    var attempt, done := 1, false;
    while !done
      invariant 1 <= attempt <= MAX_ATTEMPTS
      invariant Attempted(s, old(s.db), gone, sent, old(s.chunks), select, identity)
      invariant s.messages == old(s.messages) + sent && ids == Ids(Elements(sent))
      invariant done ==> Selected(s.db, select) == {}
      invariant |struck| == attempt - 1 && old(s.chunks) <= s.chunks
      invariant Struck(s.fault, struck, old(s.chunks), s.chunks)
      decreases MAX_ATTEMPTS - attempt, !done
    {
      ghost var kept, at := [], s.chunks;
      var yielded, outcome;
      yielded, outcome, kept := Attempt(s, select, chunk, identity, old(s.db), gone, sent, old(s.chunks));
      ids := Collect(ids, yielded);
      IdsJoin(sent, yielded);
      gone, sent := gone + kept, sent + yielded;
      assert s.messages == old(s.messages) + sent;
      SentSince(old(s.messages), sent);
      assert Since(s, old(s.messages)) == sent && forall h :: h in yielded ==> h in sent;
      AttemptedMeans(s, old(s.db), gone, sent, old(s.chunks), select, identity);
      struck := StrikeIf(s.fault, struck, old(s.chunks), at, s.chunks, outcome);
      if outcome == Done {
        done := true;
      } else if outcome == NoKafka {
        return Err(NoKafkaServer), ids, gone, struck;
      } else if attempt == MAX_ATTEMPTS {
        return Err(Conflict), ids, gone, struck;
      } else {
        attempt := attempt + 1;
      }
    }
    SentSince(old(s.messages), sent);
    AttemptedMeans(s, old(s.db), gone, sent, old(s.chunks), select, identity);
    Finished(s, old(s.db), gone, sent, old(s.chunks), select, identity);
    IdsSize(Selected(old(s.db), select));
    r := Ok(|ids|);
  }

  lemma Finished(s: Session, before: Tables, gone: seq<Host>, sent: seq<Host>, from: nat,
                 select: Host -> bool, identity: Option<int>)
    requires Attempted(s, before, gone, sent, from, select, identity) && Selected(s.db, select) == {}
    ensures Elements(sent) == Selected(before, select)
    ensures Distinct(sent) <==> NoneAtCommit(s.fault, from, s.chunks)
  {
    hide Distinct, Elements, Selected, Without, NoneAtCommit;
    AllAnnounced(before, gone, sent, select, identity);
  }

  /** Different chunks among those tried at which a deadlock struck. */
  ghost predicate Struck(fault: nat -> Fault, struck: seq<nat>, from: nat, to: nat) {
    && (forall i :: 0 <= i < |struck| ==> from <= struck[i] < to && fault(struck[i]) != NoFault)
    && (forall i, j :: 0 <= i < j < |struck| ==> struck[i] < struck[j])
  }

  lemma NotStruck(fault: nat -> Fault, from: nat)
    ensures Struck(fault, [], from, from)
  {}

  lemma StrikeIf(fault: nat -> Fault, struck: seq<nat>, from: nat, at: nat, to: nat, outcome: Outcome) returns (now: seq<nat>)
    requires Struck(fault, struck, from, at) && from <= at <= to
    requires outcome == Deadlocked ==> at < to && fault((to - 1) as nat) != NoFault
    ensures Struck(fault, now, from, to) && |now| == |struck| + if outcome == Deadlocked then 1 else 0
  {
    now := if outcome == Deadlocked then struck + [(to - 1) as nat] else struck;
  }

  lemma AttemptedMeans(s: Session, before: Tables, gone: seq<Host>, sent: seq<Host>, from: nat,
                       select: Host -> bool, identity: Option<int>)
    requires Attempted(s, before, gone, sent, from, select, identity)
    ensures GoneExactly(before, s.db, gone, select, identity)
    ensures Selected(s.db, select) == {} <==> forall h :: h in s.db.hosts ==> !select(h)
  {
    DeletedMeans(before, s.db, gone, select, identity);
  }

  lemma NothingSent()
    ensures Ids(Elements([])) == {}
  {}
}
