# Host inventory: a verified model

The inventory service keeps hosts, the workspace each host belongs to, and several
copies derived from both: an outbox log that other services replay, the workspace
shown on every host row, cached answers for insights clients, and more than one form
of the same tags. This project models the code that keeps those copies in step and
proves that it does, over every run, for all inputs. Where the code does not meet the
obvious property, the model keeps the code as it is, a lemma exhibits an input on which
it fails, and another states exactly when it holds.

`dafny verify dfyconfig.toml` verifies everything.

## The parts

**Outbox** (`OutboxHistory`, `OutboxProtocol`, `OutboxReplication`, `OutboxSession`).
A transition system of flushes, commits and rollbacks over a table of hosts, with
pending operations and a log. A class `Session` carries out the same steps with the
listeners' loops and both ways of writing the outbox; flushes, rollbacks and commits are
proved to be steps of the transition system, batched commits where organisations agree.
Main results: over every run, replaying the log always gives exactly the committed
hosts, each with its own columns, if and only if at every commit each stored host is reported
last or unchanged, and each removed one deleted last; with one group per host that is so
unless a transaction re-creates a host it deleted; the batched path emits what the
per-item path emits if and only if no pending report names a host stored under another
organisation of the batch; payload changes that the listeners overlook are exactly the
reorderings that put another group first while keeping the set of ids.

**Workspaces** (`WorkspaceState`, `Workspace`). Two tables (hosts with their copied
groups, and associations) in a class, the operations with their rollbacks, and the
savepoint-and-retry move out of a group while other sessions delete hosts. Main results:
every operation says exactly when it succeeds and what the membership is afterwards; any
sequence of operations leaves each host with exactly one association, in its own
organisation, and shows exactly that group, under its current name, on the host.
Deleting workspaces succeeds exactly when each can be emptied in the order in which they
come; listing the ungrouped workspace among them makes that order matter. Patching the
ungrouped workspace always fails, because `Group.patch` refuses it.

**Matching and duplicates** (`SqlLogic`, `FactMatching`, `HostMatching`,
`DuplicateRemoval`, `DuplicateJob`). The database filter in three-valued logic against
the one in memory, the staged search, and the paginated job. Main results: the two
filters disagree on exactly two kinds of hosts, those whose only match is a provider
type and which have no value for the other facts, and those that hold a given value
otherwise than as the given text, as every host loaded from the database holds its
insights id; a match is a match on the fact of its stage; for each fact it is read off
the input alone whether a match can contradict it, and a host that does is given where
it can; searching the batch before the database finds what the database alone would
under an exact condition; a finished run of the job is a fixpoint although matching is
neither symmetric nor transitive; where one order decides all ties, every deleted host
leaves a chain of copies, each preferred to the one before, that ends at a survivor, even
when a run is interrupted. The query prefers hosts that never checked in, since NULL
comes first in descending order: the copy with the latest check-in survives if and only
if all its copies have checked in. Where queries order ties differently, all of a group
of copies can be lost if and only if two of them tie for the first row.

**Cache** (`SystemCache`, `SystemCacheKey`). Readers and writers as a transition system
whose steps are single store operations. Main results: no answer is older than the
invalidations completed before its request; letting the counter expire keeps that true
if and only if nothing that outlives it carries a later generation or an outdated
answer; storing an ingested host under a counter read earlier keeps it true if and only
if that generation is past or no later commit has been invalidated, and no request is
about to be misled; stale answers are reached from the start in both ways; keys of
different systems, generations or forwarded identities differ, unless an identifier
holds one of the key's own separators.

**Tags** (`TagCodec`, `TagTree`, `TagForms`). Percent-encoding, the regular expression
against a declarative definition of how it may divide a string, and the nested, listed
and combined forms. Main results: a tag survives the trip through its string if and only
if it is representable, invalid bytes being replaced; flattening and rebuilding loses only namespaces without keys,
in every iteration order; canonicalising is idempotent; combining is an idempotent fold.

**Listing** (`GroupOrdering`), **staleness** (`Staleness`). Two stable sorts in a row give
the only list in the order of two keys, and its pages partition it. Merging adjacent
staleness states preserves meaning for all hosts and moments if and only if the
boundaries ascend, for any number of states.

**Deletion in chunks** (`HostDeletion`, `HostListDeletion`) and **application data**
(`AppDataUpsert`). A signal with the p-th host takes back exactly the chunk of that host;
the reaper's count of hosts left is right if and only if no signal came or it came within
the first chunk. A deletion on request that is tried again after deadlocks deletes every
host and counts it once, but sends one message per host if and only if no chunk fell to a
deadlock at its commit, since messages are sent before it; when the attempts are used up,
a chunk lost that way stays announced. The one-statement upsert and its row-by-row
fallback write the same table and return the same ids, and fail exactly when a key is
named twice.

## Assumptions

- Sessions flush before they commit, commits are serialised, host ids are not shared by
  organisations, the database does not fail except where stated, and nothing new is tracked while a commit's
  operations are processed. The old values of changed columns are loaded.
- Creation of the ungrouped workspace by another service may fail; that is the parameter
  `canCreate`.
- The readers of the cache are readers of one system; Redis answers.
- Whoever asks for hosts to be deleted reads the generator to its end.
- Insights ids are UUIDs, in any spelling the database accepts.
- Workspaces in a listing have distinct ids; `lower` stands for Python's lower-casing.
- Rows of one upsert have the same columns, as the statement requires.

## Model

| member | source | states |
|---|---|---|
| OutboxHistory.ExtractionSplits | lib/host_outbox_events.py:52-101 | the ids of all group dictionaries in a change history, whatever mixture of wrappers it has, are those extracted and those hidden in lists inside a tracked list |
| OutboxHistory.ExtractIsCompleteIff | lib/host_outbox_events.py:92-99 | the extraction finds all ids if and only if each hidden one also stands in the open |
| OutboxHistory.ItemSplits | lib/host_outbox_events.py:87-99 | the same split for one item of the history |
| OutboxProtocol.PayloadShowsIff | lib/outbox_repository.py:46-54 | a payload is a host's if and only if it has each of its four columns under that column's own name, empty and missing ones as null, and the id of its first group if it has groups |
| OutboxProtocol.RelevantIff | lib/host_outbox_events.py:104-145 | a change is noticed if and only if one of the four columns differs or some group id is held before or after only |
| OutboxProtocol.GroupHistoryIds | lib/host_outbox_events.py:122-130 | the ids compared are the ids of the host's groups |
| OutboxProtocol.DetectionGap | lib/host_outbox_events.py:104-145 | a payload change is overlooked if and only if the tracked values and the set of group ids stay and another id comes first |
| OutboxProtocol.DetectionComplete | lib/host_outbox_events.py:104-145 | with at most one group per host every payload change is noticed |
| OutboxProtocol.ReplayAppend | lib/outbox_repository.py:164-169 | replaying two stretches of the log in turn is replaying both |
| OutboxProtocol.ReplayEmitted | lib/host_outbox_events.py:210-250 | what the entries of one commit do to each host: the last operation that yields an entry decides, and a report carries the host as stored then |
| OutboxProtocol.EntriesStandForOps | lib/host_outbox_events.py:210-250 | every entry of a commit is the deletion that a pending deletion asks for or shows the columns of the stored host that a pending report names |
| OutboxProtocol.AgreesIff | lib/host_outbox_events.py:321-349 | the log replays to the committed payloads if and only if the replica has exactly the committed hosts and shows the columns of each |
| OutboxReplication.TrackAllTracks | lib/host_outbox_events.py:153-160 | tracking loses nothing, adds nothing else and keeps at most one operation per kind, host and organisation |
| OutboxReplication.FlushTracks | lib/host_outbox_events.py:163-197 | after a flush the pending operations are the earlier ones and those of its changes, each once, although two listeners see each update |
| OutboxReplication.ApplyAllAt | lib/host_outbox_events.py:181-189 | a flush gives every host it names its new row and changes no other |
| OutboxReplication.StepKeepsTxnInv | lib/host_outbox_events.py:163-197 | in an open transaction every visibly changed host has a pending report and every removed one a pending deletion |
| OutboxReplication.CommitAgreesIff | lib/host_outbox_events.py:321-349 | a commit keeps the replica in step if and only if every stored host is reported last or unchanged in its payload without an operation, and every removed one is deleted last, whatever changes led to it |
| OutboxReplication.ReplicationIff | lib/host_outbox_events.py:104-376 | over every run of flushes, commits and rollbacks, the log replays to exactly the committed hosts' payload fields after every step if and only if that holds at every commit |
| OutboxReplication.OrdinaryReplicationIff | lib/host_outbox_events.py:104-349 | with at most one group per host and fixed organisations, that is so if and only if no commit has a stored host whose last effective operation is a deletion |
| OutboxReplication.GoodRunIsClean | lib/host_outbox_events.py:153-160 | every commit is of that kind when no flush inserts a host whose deletion is pending |
| OutboxReplication.ReplicationTheorem | lib/host_outbox_events.py:104-376 | so after every step of such a run replaying the log gives exactly the committed hosts, each with its own satellite id, subscription manager id, insights id and ansible host, null where missing or empty, and the id of its first group |
| OutboxReplication.ResurrectionLosesHost | lib/host_outbox_events.py:153-160 | a host created, deleted and created again in one transaction is stored and missing from the replica |
| OutboxSession.BatchBuildsIff | lib/outbox_repository.py:221-231 | the batched path completes if and only if the payload of every host fetched for an operation builds; where organisations agree, if and only if the per-item path completes |
| OutboxSession.BatchMembers | lib/host_outbox_events.py:274-290 | the resolved operations are those of the pending ones that are deletions or whose host was fetched |
| OutboxSession.BatchEntries | lib/host_outbox_events.py:253-290 | the batched path emits at least as many entries, the same ones where organisations agree and more where they do not |
| OutboxSession.BatchedPathRefinesIff | lib/host_outbox_events.py:253-306 | both paths emit the same entries if and only if no pending report names a host stored under another organisation of the batch |
| OutboxSession.PathsAgreeOnRuns | lib/host_outbox_events.py:253-306 | in every good run the pending reports carry the organisation of their stored host, which is that condition |
| OutboxSession.GoneAreDeletedOnRuns | lib/host_outbox_events.py:224-228 | a pending report whose host is gone always has the host's deletion pending beside it |
| OutboxSession.CompletesIff | lib/host_outbox_events.py:210-306 | either path completes if and only if no pending report reads a stored host whose first group has no id; per item it reads the host under the operation's organisation, batched under that of any report |
| OutboxSession.FlushedTable | lib/host_outbox_events.py:163-197 | after a flush every host named has the row it was given or is gone, and every other is as before |
| OutboxSession.Session.BeforeFlush | lib/host_outbox_events.py:181-189 | tracks exactly the relevant updates among the modified hosts |
| OutboxSession.Session.UnitOfWork | lib/host_outbox_events.py:163-197 | writes all changes and tracks the operation of each |
| OutboxSession.Session.Flush | lib/host_outbox_events.py:163-197 | succeeds if and only if each host is changed once and inserted exactly if not stored; gives every host named its new row and touches no other; is a flush of the transition system and leaves the outbox table alone |
| OutboxSession.Session.WriteEvent | lib/outbox_repository.py:126-175 | publishes one entry and leaves no row once the marked ones are flushed away |
| OutboxSession.Session.ProcessOpsList | lib/host_outbox_events.py:210-250 | succeeds if and only if all payloads build, and then publishes the specified entries in order and adds no row |
| OutboxSession.Session.ResolveHosts | lib/host_outbox_events.py:253-290 | one query resolves every operation's host or drops the operation |
| OutboxSession.Session.WriteEventsBatch | lib/outbox_repository.py:196-263 | succeeds if and only if all entries build, publishes them in order and leaves the outbox table as it was |
| OutboxSession.Session.ProcessOpsBatched | lib/host_outbox_events.py:253-306 | completes if and only if all resolved entries build, publishes them in order and leaves the outbox table as it was |
| OutboxSession.Session.Commit | lib/host_outbox_events.py:321-368 | completes if and only if no report reads a host whose first group has no id; every entry published is a pending deletion or shows the columns of the host committed; exact log on either path; a commit of the transition system per item, and in a batch where organisations agree; an outbox failure rolls everything back; the outbox table is as before |
| OutboxSession.Session.Rollback | lib/host_outbox_events.py:371-376 | forgets the pending operations and the uncommitted rows |
| WorkspaceState.MoveAssocs | lib/group_repository.py:150-166 | dropping other associations and adding the missing ones is moving the hosts |
| WorkspaceState.DropAssocs | lib/group_repository.py:448-460 | deleting the found rows takes exactly the named members out |
| WorkspaceState.NotYetInDistinctIff | lib/group_repository.py:156-166 | the rows to insert are distinct if and only if only hosts that have theirs are named twice |
| WorkspaceState.AssociationsConserved | lib/group_repository.py:145-166 | there are as many associations as hosts that have a home |
| WorkspaceState.ReplacedGood | lib/group_repository.py:505-538 | replacing a group's members ends in agreement even when the old members' rows were out of date, with exactly the requested members |
| WorkspaceState.RenamedGood | lib/group_repository.py:501-521 | after a rename only the rows of the members are out of date |
| WorkspaceState.MovedDespiteDeaths | lib/group_repository.py:338-344 | a move between whose statements other hosts are deleted equals deleting first and moving then |
| WorkspaceState.EmptiedEnd | lib/group_repository.py:391-411 | after all listed groups are emptied, one update of the moved hosts restores agreement |
| Workspace.Inventory.InsertAssocs | lib/group_repository.py:161-166 | inserts all rows if and only if no host is listed twice and the group exists |
| Workspace.Inventory.AddHosts | lib/group_repository.py:145-171 | succeeds if and only if all hosts are known and no newcomer is listed twice, and then moves exactly them |
| Workspace.Inventory.RemoveHosts | lib/group_repository.py:438-465 | removes and returns exactly the named members of the group, nobody in a foreign organisation |
| Workspace.Inventory.UpdateHosts | lib/group_repository.py:61-88 | shows the group on exactly the named hosts of the organisation; fails if and only if there are some and the group is not to be found |
| Workspace.Inventory.AddHostsToGroup | lib/group_repository.py:224-238 | exact success condition; moves the hosts and nothing else; a failure changes nothing |
| Workspace.Inventory.RemoveHostsFromGroup | lib/group_repository.py:418-435 | returns how many left; they and only they are in the ungrouped workspace |
| Workspace.Inventory.ReplaceHosts | lib/group_repository.py:505-538 | newcomers join, the others leave for the ungrouped workspace, all rows agree |
| Workspace.Inventory.PatchGroup | lib/group_repository.py:481-538 | exact success condition; the members are exactly the requested hosts, those who left are in the ungrouped workspace, a rename reaches every member's row; a failure changes nothing |
| Workspace.Inventory.TryMove | lib/group_repository.py:334-345 | one attempt under a savepoint against deletions before each statement: all moved, or associations as before minus the deleted hosts |
| Workspace.Inventory.Retry | lib/group_repository.py:332-353 | each failed attempt has lost another member, and three failures end it |
| Workspace.Inventory.RemoveAllHosts | lib/group_repository.py:316-353 | either every surviving member is in the ungrouped workspace, or nothing changed but what others deleted, at least three members among it |
| Workspace.Inventory.DeleteGroup | lib/group_repository.py:368-375 | empties and deletes one group, if and only if the ungrouped workspace exists or can be created and the group is not that workspace with hosts in it |
| Workspace.Inventory.EmptyGroups | lib/group_repository.py:394-405 | empties the listed groups in the order the query returns them; exact success condition |
| Workspace.Inventory.DeleteGroups | lib/group_repository.py:378-415 | deletes the listed groups of the organisation, whose members and nobody else go to the ungrouped workspace; returns how many; a failure changes nothing; for every list and order, succeeds if and only if each group can be emptied in its turn |
| WorkspaceState.StillThereIff | lib/group_repository.py:368-375 | after the move a group still has hosts if and only if it is the ungrouped workspace and had some |
| WorkspaceState.NextGoesIff | lib/group_repository.py:394-405 | whether the next group can be emptied is read off the state before the first |
| WorkspaceState.OrderIndifferent | lib/group_repository.py:394-405 | without the ungrouped workspace among them all can be emptied if and only if there are none, or that workspace exists or can be created |
| Workspace.Inventory.CreateGroup | lib/group_repository.py:268-298 | exact success condition; the new group holds exactly the listed hosts |
| Workspace.Inventory.CreateHost | lib/host_repository.py:105-124 | an unmatched host starts in the ungrouped workspace, associated and shown |
| Workspace.Inventory.DeleteHost | lib/host_delete.py:95-107 | the host and its associations go, nothing else |
| Workspace.Inventory.RunOne | lib/group_repository.py:224-538 | what one operation does to the home of every host and to the groups, in each case exactly when it succeeds |
| Workspace.Inventory.RunAll | lib/group_repository.py:224-538 | every operation of a sequence does all of what it does, host by host, or nothing, by its exact condition; afterwards there is one association per host, in its organisation, of exactly the group its row shows |
| FactMatching.NoIncorrectMeans | lib/host_repository.py:338-349 | the database's "no incorrect fact" is never unknown, and true if and only if every value the host has is the given one |
| FactMatching.AtLeastOneMeans | lib/host_repository.py:361-376 | the database's "at least one" is true if and only if a fact other than a compound component matches |
| FactMatching.FiltersAgreeIff | lib/host_repository.py:236-261 | memory alone selects exactly the hosts of which a provider type is all that matches, the other facts being NULL; the database alone exactly those it selects that hold a given value as a UUID object or in another spelling |
| FactMatching.HeldOtherwiseIsMissed | lib/host_repository.py:352-358 | a host loaded from the database, whose insights id is a UUID object, is not found in memory by that id |
| FactMatching.FiltersAgreeWhenPaired | lib/host_repository.py:230-233 | they agree on hosts that hold what they have as it is given, wherever a provider type comes with a provider id |
| FactMatching.ExtractFacts | lib/host_repository.py:127-153 | yields the provider facts and the other id facts, each in order of priority |
| FactMatching.FindByFacts | lib/host_repository.py:209-224 | the first candidate, none if and only if there is none, an error if and only if the database is asked with an unpaired provider id |
| FactMatching.TargetIff | lib/host_repository.py:174-189 | the search by a fact compares exactly that fact, the provider id and non-empty type unless hosts are known by subscription manager id alone, and with the flag the subscription manager id beside the insights id |
| FactMatching.FoundIsBestFit | lib/host_repository.py:157-194 | the staged search finds the host of the organisation that comes first among those that fit the first fact any of them fits, on the columns |
| FactMatching.OthersDoNotMatter | lib/host_repository.py:251-257 | removing all hosts of other organisations changes no answer |
| FactMatching.FindExistingHost | lib/host_repository.py:157-194 | the first candidate of the first stage that has any, which is one of the hosts searched, of the organisation, and fits on its columns before every other; nothing if and only if no stage has one, and then no host of the organisation fits any fact; an error if and only if the database is asked for a provider id without type |
| FactMatching.UnpairedOnlyAtStart | lib/host_repository.py:178-183 | every stage carries the provider id, so the pairing check fails at the first stage or never |
| FactMatching.MatchedOnItsFactIff | lib/host_repository.py:174-192 | a host found at the stage of a fact equals the input on that fact, in the database always and in memory if and only if it matches more than a provider type |
| FactMatching.PairedIsMatchedOnItsFact | lib/host_repository.py:174-192 | so does every host whose provider type comes with a provider id |
| HostMatching.MatchHost | lib/host_repository.py:86-103 | the best fit among the batch's hosts of the organisation, else that among its rows in the database, else nothing; an error if and only if the batch has no answer and the database is asked for a provider id without type |
| HostMatching.FoundIsUnique | lib/host_repository.py:166-194 | a search has one answer, found at one stage |
| HostMatching.SameBeforeLast | lib/host_repository.py:352-380 | before the stage of the insights id memory selects what the database does |
| HostMatching.MemoryFirstAgreesIff | lib/host_repository.py:89-103 | where the batch answers by more than a provider type, the database alone would answer the same if and only if no row fits an earlier stage and the host is the first row at its own |
| HostMatching.MemoryCanHideTheRow | lib/host_repository.py:89-103 | a host of the batch with the same insights id hides the row with the subscription manager id, which comes first |
| FactMatching.MatchContradictsNothing | lib/host_repository.py:178-189 | it contradicts no provider id or type, and with the flag no subscription manager id unless it was found by provider |
| FactMatching.CarriedInTargets | lib/host_repository.py:176-189 | a fact that the input makes every search carry along is in the target of every stage |
| FactMatching.NotCarriedIsContradicted | lib/host_repository.py:157-194 | for every other fact and every input there is a host that is found and contradicts it |
| FactMatching.ProtectedIff | lib/host_repository.py:157-194 | for each of the four facts, read off the input alone: no match contradicts it if and only if it is carried along, or absent, or there is nothing to search by |
| FactMatching.FlagProtectsIff | lib/host_repository.py:185-189 | the flag protects the subscription manager id if and only if no provider id is given |
| FactMatching.DigitsOf | lib/host_repository.py:338-376 | two spellings of an insights id are the same UUID whatever their dashes, braces and letter case |
| DuplicateRemoval.MatchingIsFirstStage | jobs/host_delete_duplicates.py:43-59 | a stored host finds itself at its first stage, so no later search is ever reached |
| DuplicateRemoval.CopyIff | jobs/host_delete_duplicates.py:43-70 | a stored host's query finds another if and only if they share the provider id and no different type, or, without provider id, the subscription manager id, or without both the insights id; by the setting, the subscription manager id alone |
| DuplicateRemoval.SettledIff | jobs/host_delete_duplicates.py:43-70 | every host matches only itself if and only if no two share what decides |
| DuplicateRemoval.DuplicateIsSuperseded | jobs/host_delete_duplicates.py:126-136 | whatever a page would delete is, with another host that checked in no earlier or never, a copy of one host, however ties fall |
| DuplicateRemoval.MatchingIsNeitherSymmetricNorTransitive | jobs/host_delete_duplicates.py:43-59 | three hosts of which the first matches the second and the second the third, but not the second the first nor the first the third |
| DuplicateRemoval.PageSettles | jobs/host_delete_duplicates.py:126-136 | a host that survives its page matches only itself, however ties fall |
| DuplicateRemoval.SettledStays | jobs/host_delete_duplicates.py:138-151 | later deletions do not change that |
| DuplicateRemoval.SettledHasNoDuplicates | jobs/host_delete_duplicates.py:135-136 | where every host matches only itself no page has duplicates |
| DuplicateRemoval.TiesLoseAllIff | jobs/host_delete_duplicates.py:62-70 | among hosts that all match one another, queries that order equal check-ins differently can delete every one if and only if two of them tie for the first row |
| DuplicateRemoval.PageKeepsRepresented | jobs/host_delete_duplicates.py:121-151 | where one order decides ties, after a page, whichever of its duplicates got deleted, each original host has a chain to one that is kept, of copies that come ever earlier in the query |
| DuplicateRemoval.NewestSurvives | jobs/host_delete_duplicates.py:135-136 | among all hosts or any part that matching does not leave, the host that order puts highest is kept, and some host with the check-in that comes first is |
| DuplicateRemoval.LatestComesFirstIff | jobs/host_delete_duplicates.py:68 | the copy with the latest check-in is the first row if and only if every copy has checked in, NULL coming first |
| DuplicateRemoval.LatestSurvivesIff | jobs/host_delete_duplicates.py:62-136 | that copy outlives a finished run if and only if all its copies have checked in |
| DuplicateRemoval.NeverCheckedInIsKept | jobs/host_delete_duplicates.py:68 | of two copies the one that never checked in is kept and the other deleted |
| DuplicateRemoval.WithoutTiesConsistent | jobs/host_delete_duplicates.py:68 | if hosts that one host matches differ in check-in, check-ins are such an order |
| DuplicateRemoval.TiesByIdConsistent | jobs/host_delete_duplicates.py:68 | if all queries break ties by the lowest id there is such an order, whatever ties there are |
| DuplicateJob.OnlyOutdatedDeleted | jobs/host_delete_duplicates.py:135-136 | what a page deletes was outdated, by the deciding order, in the table the run started from |
| DuplicateJob.PageAdvances | jobs/host_delete_duplicates.py:121-151 | after a page every host up to its last id is settled |
| DuplicateJob.PageShortens | jobs/host_delete_duplicates.py:124-151 | fewer hosts lie after the cursor, even when the host it was taken from is deleted |
| DuplicateJob.HostTable.NextPage | jobs/host_delete_duplicates.py:151 | the next hosts in order of id, none skipped |
| DuplicateJob.HostTable.FindMatching | jobs/host_delete_duplicates.py:43-70 | the rows of the first search that finds any |
| DuplicateJob.HostTable.FindDuplicates | jobs/host_delete_duplicates.py:123-136 | all matches of the page's hosts but the first row of each query |
| DuplicateJob.HostTable.DeleteBatch | jobs/host_delete_duplicates.py:73-102 | deletes exactly the given hosts chunk by chunk and returns how many; an interrupt leaves the earlier chunks deleted and nothing else; a dry run only counts |
| DuplicateJob.HostTable.RunOrg | jobs/host_delete_duplicates.py:105-158 | terminates; however it ends and ties fall, every host deleted is, with another that checked in no earlier or never, a copy of one host, on the columns; a finished run leaves no two copies, and another deletes nothing; the count is what was removed; other organisations and dry runs untouched; where one order decides ties, however the run ends, everything deleted has a copy left that comes before it in the query, and was outdated by that order, and a dry run counts no less |
| SystemCache.StepKeepsSound | api/cache.py:77-130 | each single store operation of readers and writers keeps the invariant, the lazy initialisation included |
| SystemCache.RunKeepsSound | api/host.py:153-213 | so does every interleaving of them |
| SystemCache.FreshnessTheorem | api/host.py:153-213 | no answer is older than a commit whose invalidation completed before its request began |
| SystemCache.NeverAnsweredWithLess | api/host.py:153-213 | over every run, a request that arrives after a writer's increment is never answered with a version before that writer's |
| SystemCache.ExpiryIsSafeIff | api/cache.py:95-125 | letting the counter expire keeps answers fresh if and only if nothing that outlives it has a later generation or is outdated |
| SystemCache.CounterCatchesUp | api/cache.py:124-125 | a counter restarted below an old answer's generation reaches it by invalidations alone and serves it |
| SystemCache.IngestIsSafeIff | app/queue/host_mq.py:1441-1452 | storing an ingested host under a counter read earlier is safe if and only if that generation is past, or current with no later commit invalidated, and no request about to look under it needs more |
| SystemCache.HarmfulExpiryIsReachable | api/cache.py:98-104 | from the start, one request, one change with its invalidation and the expiry of the counter lead to stale answers |
| SystemCache.HarmfulIngestIsReachable | app/queue/host_mq.py:1441-1452 | from the start, a change invalidated between the consumer's commit and its store leads to stale answers |
| SystemCacheKey.SystemKeyInjective | api/cache_key.py:30-37 | equal keys come from the same system, generation and forwarded identity, unless an identifier holds the separator that follows it |
| SystemCacheKey.SystemKeyIsNoCounter | api/cache.py:73-74 | no answer is stored under the name of a counter, unless an identifier holds the separator that follows it |
| SystemCacheKey.BaseUnique | api/system_cache_key.py:4-5 | the base of a key determines the system, unless an identifier holds the separator that follows it |
| SystemCacheKey.KeyText | api/cache_key.py:30-37 | the text of a key, an empty forwarded identity adding nothing, and an error if and only if an identifier is empty |
| SystemCacheKey.DecimalReads | api/cache_key.py:34 | the generation is written in decimal without leading zeros |
| SystemCacheKey.SeparatorsCollide | api/system_cache_key.py:4-5 | an insights id or organisation with that separator inside always shares its key with another system |
| SystemCacheKey.OwnerCollides | api/cache_key.py:34-36 | so does an owner that imitates a generation with a forwarded identity |
| SystemCacheKey.CounterCollides | api/cache.py:73-74 | and the counter of such an owner shares its name with another system's answer |
| TagCodec.UnquoteQuote | app/utils.py:295 | percent-decoding undoes percent-encoding |
| TagCodec.QuotedByte | app/utils.py:318-333 | letters, digits and the four marks stay as they are, every other byte becomes a percent sign and two upper-case digits |
| TagCodec.UnquotedEscape | app/utils.py:295 | a percent sign and two hexadecimal digits in either case are one byte |
| TagCodec.UnquotedOther | app/utils.py:295 | everything else stands for itself |
| TagCodec.ParseSound | app/utils.py:288 | what the expression captures divides the string as its groups demand |
| TagCodec.ParseComplete | app/utils.py:288 | a string that can be divided is matched, and in one way once a namespace is present or absent |
| TagCodec.SlashEqualsIsRejected | app/utils.py:288 | no one-line string with a slash directly before an equals sign is a tag |
| TagCodec.RepairIff | app/utils.py:295 | decoding in replacement mode changes a byte text if and only if it is no string |
| TagCodec.CharCountIs | app/utils.py:296 | the length of a string is its number of well-formed sequences |
| TagCodec.FromStringIff | app/utils.py:295-297 | a string that is matched is refused if and only if a decoded part has more than 255 characters |
| TagCodec.NamespaceIsNoneIff | app/utils.py:374-379 | no namespace, an empty one and "null" are read as none, and no other is |
| TagCodec.ParsedIsRepresentable | app/utils.py:287-299 | whatever is read from a string is made of strings and has a string form of its own |
| TagCodec.StringParses | app/utils.py:318-333 | the expression finds a tag's own quoted parts in its string |
| TagCodec.RoundTripIff | app/utils.py:286-333 | a tag equals what is read from its string if and only if key and value are not empty, the namespace is no spelling of null and no part exceeds 255 characters |
| TagTree.BuildAppend | app/serialization.py:586-605 | building from two stretches of input in turn is building from both |
| TagTree.BuildAt | app/serialization.py:598-603 | what any input builds at a key: the earlier values and then the new ones offered, each once, in order |
| TagTree.BuildStoresList | app/serialization.py:586-605 | a list of tags is stored as exactly its namespaces, with null spellings as one, its keys and its non-empty values, none twice |
| TagTree.BuildStoresDict | app/serialization.py:608-635 | so is a dictionary |
| TagTree.DeserializeTagsList | app/serialization.py:586-605 | fails if and only if some key is empty, else stores exactly the namespaces, keys and non-empty values of the list |
| TagTree.DeserializeTagsDict | app/serialization.py:608-635 | fails if and only if some key is empty, else stores exactly the namespaces, keys and non-empty values of the dictionary, spellings of null merged |
| TagForms.ReceivedIsCanonical | app/serialization.py:586-635 | received tags have distinct, non-empty values and no empty key or namespace |
| TagForms.SerializeTags | app/utils.py:408-426 | lists every key of every namespace once, with one tag per value or one without; a plain text counts as its only value |
| TagForms.FlattenListsAll | app/utils.py:408-426 | a structured tag is listed if and only if it is one of a stored key, with one of its values or, if it has none, without |
| TagForms.BuildCombines | app/tags_blueprint.py:34-51 | combining adds exactly the values of the items no part of which is missing or empty, behind those there are |
| TagForms.FlattenRebuilds | app/serialization.py:638-639 | rebuilding from the flat list gives canonical tags back minus namespaces without keys, in every iteration order |
| TagForms.CanonicalisingIsIdempotent | app/serialization.py:608-635 | canonical tags received again in any order stay as they are |
| TagForms.CombineTags | app/tags_blueprint.py:17-53 | adds exactly the values that complete items give, each once and behind the existing ones, and skips the others |
| TagForms.CombineIsAFold | app/tags_blueprint.py:34-51 | combining a concatenation is combining in turn |
| TagForms.CombineKeeps | app/tags_blueprint.py:43-51 | existing values stay in place and order, and distinct values stay distinct |
| TagForms.CombineIsIdempotent | app/tags_blueprint.py:43-47 | combining the same items again changes nothing |
| TagForms.CombineIsDeserialize | app/tags_blueprint.py:17-53 | on complete items, combining into nothing is receiving them as a list |
| GroupOrdering.Sort | api/group_query.py:191-197 | a sorted permutation in which equal keys keep their order, also in reverse |
| GroupOrdering.TwoSortsAreTwoColumns | api/group_query.py:187-197 | any stable sort by id and then by the key gives the order of both columns, the id always ascending |
| GroupOrdering.OrderIsUnique | api/group_query.py:187-197 | only one list has the same rows in the order of a given key and the id |
| GroupOrdering.TextLessIff | api/group_query.py:191-197 | of two texts the one with the lower character at their first difference, or that ends there, is less |
| GroupOrdering.ListingIff | api/group_query.py:178-197 | a listing is all rows in the order asked for, on the columns: names in lower case ascend by default, counts and times descend, "desc" and any other direction override that, and ids break ties ascending |
| GroupOrdering.PagesPartition | api/group_query.py:199-202 | the first pages in turn are the whole list if and only if there are enough of them; further pages are empty |
| GroupOrdering.ListGroups | api/group_query.py:178-204 | one page of the only list of all rows in the order that the parameters ask for, stated on the rows' columns and the parameters' texts, and the total |
| Staleness.ExactlyOneState | app/staleness_states.py:45-55 | with ascending boundaries a host that has checked in is in exactly one state, another in none |
| Staleness.StateIff | app/staleness_states.py:45-55 | a host is in a state if and only if it has checked in, the boundary before the state is reached and the next one is not |
| Staleness.RunMeansItsStates | app/staleness_states.py:76-85 | the interval of a run of states is true if and only if one of them is |
| Staleness.MergingIsSoundIff | app/staleness_states.py:76-85 | for all runs, moments and hosts, if and only if the boundaries ascend |
| Staleness.SortedIndices | app/staleness_states.py:61 | the given states, ascending, without repeats |
| Staleness.BuildRuns | app/staleness_states.py:68-73 | runs that cover exactly the given states |
| Staleness.CombinedFilter | app/staleness_states.py:57-94 | for any list of states, in any order and with repeats, true if and only if one of the states is; other states by the filter of their name, an error if and only if one has none |
| HostDeletion.DeletionKeepsReferences | lib/host_delete.py:95-107 | whoever asks, no association of a deleted host is left and none of another is touched |
| HostDeletion.DeletedMeans | lib/host_delete.py:95-107 | row by row: exactly the hosts named are gone, all of them selected, and exactly the associations that name one in its own or the caller's organisation |
| HostDeletion.KeptIsWholeChunks | lib/host_delete.py:43-50 | the hosts kept deleted at a signal are the whole chunks before it, the only such count |
| HostDeletion.Session.DeleteHost | lib/host_delete.py:95-107 | the host and its associations go |
| HostDeletion.Session.DeleteChunk | lib/host_delete.py:34-52 | a chunk of selected hosts, each once, or the signal that came after one of them, or the deadlock at one |
| HostDeletion.Session.GuardedChunk | lib/host_delete.py:81-88 | commits and announces the chunk, or undoes it; announced and undone exactly when its commit falls to a deadlock |
| HostDeletion.Session.SendMessages | lib/host_delete.py:55-65 | one message per host of the chunk, in order |
| HostDeletion.Session.DeleteHosts | lib/host_delete.py:68-92 | terminates; ends uninterrupted if and only if no selected host is left; an interrupt at the p-th host keeps exactly the whole chunks before it; every host handed out is gone and has one message, no other has any, except the chunk of a failed commit, which is announced and still stored |
| HostDeletion.DeletedInTurn | lib/host_delete.py:79-88 | deleting one set of selected hosts and then another is deleting both, and no host is in both |
| HostListDeletion.Collect | api/host.py:340-341 | adds the ids of all hosts handed out |
| HostListDeletion.AttemptAdds | api/host.py:328-362 | over several attempts what is gone was announced, and more was announced than is gone if and only if a chunk was lost |
| HostListDeletion.Attempt | api/host.py:328-341 | continues the earlier attempts; a chunk lost at its commit is announced and still stored |
| HostListDeletion.DeleteHostList | api/host.py:311-378 | succeeds if and only if no asked-for host is left, and then returns their number, each announced, once if and only if no chunk was lost at its commit; otherwise exactly which hosts are gone and announced; a first and a second deadlock are tried again, and a conflict is reported if and only if a third strikes |
| HostDeletion.Session.Reap | jobs/host_reaper.py:85-108 | at most two rounds; the count of hosts left is right if and only if no signal came or it came within the first chunk |
| AppDataUpsert.StatementIsEach | lib/host_app_repository.py:18-24 | a statement that names no key twice does what its rows do one at a time |
| AppDataUpsert.EffectIsUnique | lib/host_app_repository.py:18-24 | the effect of a statement is determined by its rows |
| AppDataUpsert.EachIsLiveStatement | lib/host_app_repository.py:34-50 | passing over the hosts that have gone is the one statement without their rows |
| AppDataUpsert.EachUpserts | lib/host_app_repository.py:18-24 | every column of a row of an existing host has the row's value, its other columns and all other rows are as before |
| AppDataUpsert.IdsJoin | lib/host_app_repository.py:34-40 | the ids are those of the rows whose host exists, one each and in their order |
| AppDataUpsert.Database.Execute | lib/host_app_repository.py:73-74 | fails without effect if and only if a key comes twice or a host is gone, else stores every row's values column by column and returns all ids |
| AppDataUpsert.Database.UpsertIndividually | lib/host_app_repository.py:27-50 | writes the rows of existing hosts one at a time and returns their ids in order |
| AppDataUpsert.Database.Upsert | lib/host_app_repository.py:53-85 | both paths leave the same table and return the same ids: the columns of every row whose host exists hold the new values, and nothing else has changed; fails if and only if a key comes twice |

## Left out

- Clients of Kafka, Redis, PostgreSQL and HTTP services, metrics, logging and configuration: the stores are maps, sets and logs.
- LISTEN/NOTIFY, back-off, read replicas and clocks: timing; the current time is a parameter.
- RBAC filters, views, export, pagination links and id-existence checks: they change none of the copies.
- Creation of workspaces in RBAC v2, which persists when the local transaction is rolled back, and the thread-local cache of the ungrouped group.
- Host counts and timestamps inside serialised groups: not kept in step by the service either; only id and name matter.
- Host events sent after a workspace operation: they follow its commit and are not part of its transaction.
- `Host.update` and `Host.patch`: assumed to leave groups alone.
- OutboxReplication.OrdinaryReplicationIff: for runs in which hosts have at most one group and keep their organisation; ReplicationIff has the others.
- OutboxReplication.ReplicationTheorem: for such runs in which no flush inserts a host whose deletion is pending; ReplicationIff has the others.
- OutboxSession.Session.WriteEvent: row ids are consecutive numbers instead of random ones; validation by the schema is not modelled beyond the missing group id.
- Failures of Redis, for which the code reads generation 0 or skips the increment, and the in-process cache used without Redis.
- SystemCacheKey.SystemKeyInjective: for identifiers that do not hold the key's separators; SeparatorsCollide, OwnerCollides and CounterCollides show the others to collide.
- FactMatching.FindExistingHost: the order of database rows (last modified first) and the exclusion of culled hosts are the caller's list of rows.
- HostMatching.MemoryFirstAgreesIff: hosts found in the batch by a provider type only are excluded; the database never finds them at that stage.
- DuplicateJob.HostTable.DeleteBatch: the chunk in which a deletion is interrupted is given, not derived from the signal after each host, which HostDeletion has; a Kafka outage counts as an interrupt.
- Workspace.Inventory.DeleteGroups: other sessions do not interfere there; RemoveAllHosts has the interference.
- Workspace.Inventory.PatchGroup: hosts are read and written in one transaction without interference.
- TagCodec.RoundTripIff: texts are their UTF-8 bytes.
- TagForms.CombineTags: sharing of untouched parts between the old and the new dictionary is not captured, since tags are values.
- Staleness.CombinedFilter: what a filter for a state outside the canonical ones says is a parameter, as the service has none.
- GroupOrdering.OrderIsUnique: the database's listing orders names by its own collation and without lower-casing, which is another key.
- HostDeletion.Session.DeleteHosts: hosts deleted by others at the same time, for which no message is sent, are not modelled; deadlocks are the only database failure; notifications go with the messages.
- HostListDeletion.DeleteHostList: no signal interrupts it, as the request passes none; payload tracking and the delay between attempts are not modelled.
- AppDataUpsert.Database.Upsert: integrity errors other than a missing host, which are raised, are not modelled.
- `update_host_tags` and its batch handler, which store what `combine_tags` returns, and `create_nested_from_tags`, which only the filters of a host query use.
