# Verification of the distributed counter and of the libraries under it

The program is a cluster of servers that keep named counters. Every server owns an (Up, Down, Revision) triple
for each counter, gossips it, and holds lagging copies of the triples of all others. Membership, gossip and
suspicion come from a vendored library, and so does the codec of its messages. This project models three parts
and proves what they promise.

**The replicated counter.** `Counters` has the triple and its merge, `Convergence` deliveries in any order,
`CounterRuns` any number of servers exchanging copies and resets over a network that loses, repeats and reorders,
`CounterSets` what a set achieves when its resets arrive, and that it can be read,
`Servers` the server object whose methods change cells and tables in place, `Rosters` which members it counts on (what
the member notifications of `Servers` are proved against), `ChangeMessages` the bytes of the messages and the queue of
changes. The merge also takes the maximum when the incoming revision is lower
(`server/server.go:116-123`). So the lag invariants carry a premise on the run: no delivery to another server than the
owner is of an older revision that exceeds what is held. `DeliverKeepsInvIff` says exactly which delivery breaks them,
and `StaleRaiseOverdraws` shows it in eight steps. Such a delivery to the owner itself breaks none of them, but takes
back what a reset took: `StaleRaiseAtOwnerUndoesSet` shows a set undone in six steps, `StepConservesIff` says exactly
which delivery does that, and the ledgers book it. `ConvergesIff` is the exact condition for order not to matter.

**Membership and gossip.** `Membership` has the handlers as functions on one member's view and what they keep,
`MembershipRuns` any number of members from before their first announcement on, `Memberlists` the list as the program
stores it: records, slice, map and count changed in place by the same handlers, each proved to do what its function
says. `Reactions` says apart from the branches of the handlers exactly when a message is taken, and who is told.
`Suspicions` has the time stamps of status changes, by which the timer of a suspicion recognizes it. The check of
the timer is exact (`RecognizedIff`), but the incarnation it accuses is read after the lock is released
(`state.go:848-866` of the membership library): `RefutedInTheGap` shows a member declared dead at the incarnation of
its own refutation, and `TimerSparesIff` says exactly when it is spared. `Incarnations` is the counter at its real width.
`BroadcastQueue` is the transmit-limited queue with its loops, `QueueRuns` every sequence of calls on it, `Compound` packets of several messages,
`Packets` the arithmetic that fills one.

**The codecs.** `TwosComplement` is sign extension and its pruning, `TimeCodec` the packed time, `Shifts` the overflow
test, `ByteStreams` the growing buffer and the cursor, `Msgpack` integers and container lengths of the MessagePack
format ("int format family"), `Binc`, `BincSymbols` and `BincDrivers` the binc format with its symbol tables,
`BincStreams` whole streams through its objects. Where a
round trip fails for some inputs the lemma is an equivalence with a condition on the input.

`Bytes` and `Common` hold byte strings, numbers and sums.

How the parts fit: a method that works in place is proved against a function of the values before, and the results
about runs are about those functions. The members of `Memberlists` and `Servers` record in order what they hand to
their broadcast queues; what the queues then do with it is `QueueRuns` and `ChangeMessages`. A step of a run is one
locked region of the program, or one access outside the locks: a counter raised before its announcement is handled, a
record looked at before an accusation from it is, leaving decided before the own death is announced, the listeners of a
member running before its announcement. Time stamps, random choices, sort order beyond the transmit counts, map
iteration order and message arrival are arbitrary.

Premises: Up and Down are real numbers; Revision and, in `Membership`, the incarnation do not wrap
(`Incarnations` says exactly how far that is right); a process does not restart within a run.

## Model

| member | source | states |
|---|---|---|
| Counters.MergeIsJoinIff | server/server.go:114-123 | merging a copy gives the least upper bound of (Revision, then Up and Down) exactly when the copy is not of a lower revision with a larger Up or Down |
| Counters.StaleRaiseOutcome | server/server.go:116-123 | there the revision stays and Up and Down are the larger ones |
| Counters.OrderIndependentIff | server/server.go:110-123 | the exact condition on any set of deliveries about one counter for their order and repetition not to matter: nothing is newer than what is held, or the newest deliveries dominate the others |
| Counters.ReadingByOwner | server/api.go:50-63 | a reading, summed over replicas in any order, is the sum over the owners of the values of their copies |
| Convergence.LookupApplyAll | server/server.go:110-123 | after any deliveries each counter is what the deliveries about it alone make of it |
| Convergence.ConvergesIff | server/memberlist.go:107-128 | whole replica maps agree for all orders and repetitions of the same deliveries exactly when the condition above holds for every counter delivered |
| Convergence.EqualRevisionsConverge | server/memberlist.go:107-128 | deliveries of one revision per counter give the same replica map in every order, with every repetition |
| Convergence.EqualRevisionsMaximum | server/server.go:114-123 | ... and that map holds the pointwise maximum: an upper bound each part of which was held or delivered |
| CounterRuns.StepIsServerOperation | server/api.go:65-169 | every step of the network model changes one server only, and that one as increment, merge, guarded reset or end of a set do |
| CounterRuns.StepKeepsInv | server/server.go:110-153 | one step that hands no server but the owner a stale copy exceeding what it holds keeps every copy and message at most its owner (in revision; at equal revision in Up and Down), keeps Up and Down from being negative, and lets every stored counter only climb |
| CounterRuns.RunKeepsInv | server/server.go:110-153 | the same over any run of such steps: increments, sets, gossip and push/pull with loss, repetition and reordering, old copies that come back to their owners included |
| CounterRuns.ResetsNeverOverdraw | server/server.go:142-150 | in such a run an accepted reset subtracts no more Up and no more Down than the owner has |
| CounterRuns.DeliverKeepsInvIff | server/memberlist.go:107-128 | exactly which single delivery breaks that invariant: an older revision, at another server than the owner, against a copy as new as the owner, that exceeds the owner |
| CounterRuns.StaleRaiseOverdraws | server/server.go:116-123 | a concrete run of eight steps in which a late copy of an old revision undoes a reset at another server and the next reset drives Up to -5 |
| CounterRuns.StaleRaiseAtOwnerUndoesSet | server/memberlist.go:107-128 | a concrete run of six steps in which a push/pull hands an owner its own old copy: every reset of a set to 0 was accepted, no invariant is broken, and the owners hold 5 |
| CounterRuns.StepConservesIff | server/memberlist.go:107-128 | with copies lagging behind their owners, a step books exactly what it is meant to unless it hands an owner a copy of its own of an older revision that exceeds what it has by different amounts in Up and in Down |
| CounterRuns.AcceptedAtMostOnce | server/server.go:142-150 | in every run whatsoever two accepted resets of one counter are of strictly rising revisions: duplicates and races at one revision take effect at most once |
| CounterRuns.RunLedger | server/api.go:65-169 | over every run, with no premise, the owners' total changes by what increments, accepted resets and ends of sets book, plus what owners take back from old copies of their own |
| CounterRuns.SetLedger | server/api.go:111-168 | with no premise on the run: when a set ends the owners hold the value set, plus what the others held, counted and took back, less what their accepted resets took |
| CounterRuns.SetBooksUnseenWork | server/api.go:84-169 | with no premise on the run: when each reset sent is accepted at some time, before or after the set ends, and whenever its copy was read, the owners end with the value set, plus exactly what the other owners held beyond the copies sent, plus what was counted, plus what owners took back |
| CounterRuns.RestoredIs | server/memberlist.go:107-128 | under that invariant a step takes back what its copy exceeds the owner by, in Up less in Down, when it is one that undoes (an old copy of its own, handed to the owner, that exceeds it by different amounts), and nothing otherwise |
| CounterRuns.SetConservesIff | server/api.go:84-169 | where no increment and no value set is negative, the work not seen is conserved exactly when no delivery of the run undoes: hands an owner of this counter an old copy of its own that exceeds what it has |
| CounterRuns.SetConservesUnseenWork | server/api.go:84-169 | with increments and values of any sign it is conserved in every run in which copies lag behind their owners and no delivery undoes |
| CounterRuns.ResetFreeTotal | server/api.go:65-82 | without sets an owner's value is the sum of its increments, in every run, and every copy is below its owner |
| CounterRuns.ExactGetIsTotal | server/api.go:50-63 | where the copies are as far as the owners are, a read is what the owners hold together, in any run |
| CounterRuns.ResetFreeGetIsExact | server/api.go:50-63 | once the copies equal their owners a read is the sum of all increments |
| CounterRuns.ResetFreeGetClimbs | server/api.go:50-63 | with increments that are not negative a read never decreases and never exceeds the true total |
| CounterSets.ResetTakesEffectIff | server/server.go:142-150 | a reset that arrives changes the counter of the owner exactly when it is of its revision, whatever Up and Down are; then it is taken off, the revision rises and the change is told |
| CounterSets.ResetIsSentIff | server/api.go:111-136 | a member sends the reset exactly with the copy it holds, and never one of its own counter |
| CounterSets.PushCarriesIff | server/memberlist.go:56-76 | a push carries exactly what is held |
| CounterSets.CopyArrives | server/server.go:110-123 | after a copy has arrived what is held is at least as far as the copy and as before, and is the copy if that is newer |
| CounterSets.ChangesAreTold | server/api.go:21-48 | every change that an owner makes of its counter is told to the others as it then is |
| CounterSets.IncCounts | server/api.go:65-82 | counting adds the difference to the owner by raising one of Up and Down, in the same revision |
| CounterSets.SetOpensRevision | server/api.go:150-168 | a set leaves the owner with the value, all in Up or all in Down, in the next revision, the first one being 0 |
| CounterSets.ExactSetReachesValue | server/api.go:84-169 | a set whose copies are exact and whose resets are all delivered, in any order and any number of times, leaves all other owners at nothing in a new revision and all owners together at the value set |
| CounterSets.SetIsRead | server/api.go:50-63 | and any server that has then heard from all owners answers that value |
| Servers.Server.MergeEntry | server/server.go:110-123 | an incoming copy changes the one entry as Merge says, in place or by a new cell |
| Servers.Server.ReadChange | server/server.go:83-126 | a change about a known member is merged; one about an unknown member is refused and changes nothing |
| Servers.Server.ReadReset | server/server.go:128-153 | a reset of the current revision is subtracted, bumps the revision and is announced; any other changes nothing |
| Servers.Server.Inc | server/api.go:65-82 | the own counter grows by the difference (Down for negative ones), the new triple is announced, and the own part is answered |
| Servers.Server.SendResets | server/api.go:111-144 | exactly the live, reachable other members with a copy are sent that copy; the set fails exactly when one with a copy cannot be reached |
| Servers.Server.FinishSet | server/api.go:150-168 | the own counter takes the value in a new revision, is announced, and the old own value is answered |
| Servers.Server.Set | server/api.go:84-169 | a failed set changes nothing; one that succeeds sent all resets and ends as FinishSet does |
| Servers.Server.Get | server/api.go:50-63 | the loop over replicas computes the reading, and answers the consistency flag |
| Servers.Server.List | server/api.go:171-190 | the loop over all replicas lists exactly the names with a reading other than 0, with that reading |
| Servers.Server.MergeMembers | server/memberlist.go:94-105 | the later time stamp wins for every member, in any order, and the server itself is active now |
| Servers.Server.MergeReplicas | server/memberlist.go:107-128 | every entry of a known member is merged once, in any order of the maps; the rest stays |
| Servers.Server.MergeRemoteState | server/memberlist.go:78-131 | members first, then the replicas of the members then known |
| Servers.PushedArrivesIff | server/memberlist.go:107-128 | of a push exactly the entries of known members come in, and what is held of them is then at least as far |
| Servers.PushPullAgreesIff | server/memberlist.go:78-131 | two servers that push to each other and know all members in their tables end with the same table exactly when neither had an older copy exceeding the other's |
| Servers.MergeIsDeliveries | server/memberlist.go:107-128 | a push/pull is the delivery of its entries one by one, in whatever order |
| Rosters.StaysActiveIff | server/memberlist.go:94-105 | an active member stays active exactly unless it left on purpose or a pushed state says later that it is not |
| Rosters.BecomesActiveIff | server/memberlist.go:94-148 | one that is not active, or was never heard of, becomes so exactly when it joins or a pushed state says so later, or it is the server that is pushed to |
| Rosters.MembersKnownIff | server/memberlist.go:94-176 | who is known after a notice, that nobody is forgotten, and of which time what is known then is |
| Rosters.ToldAgreeIff | server/memberlist.go:94-98 | two servers that tell each other agree on a member exactly when they had not heard two things of it at the same time |
| Rosters.MissingStaysInconsistent | server/memberlist.go:133-176 | a server with an active member that is missing is inconsistent from the first look on, whatever joins, leaves and pushed states it hears, until the member is live again, leaves on purpose, or is pushed as inactive |
| Rosters.LastLookDecides | server/server.go:59-81 | after any notices the server is consistent exactly when all members active at the last look were live then |
| Rosters.ReconnectsIff | server/memberlist.go:133-176 | after any notices the addresses to reconnect are exactly those whose last notice was a member going missing |
| Servers.Server.UpdateConsistent | server/server.go:59-81 | consistent exactly when every active member is live |
| ChangeMessages.ChangeRoundTripIff | server/server.go:83-108 | a change message is parsed into the node, name and triple it was made of exactly when neither name holds a newline |
| ChangeMessages.ChangeReadsAsIff | server/server.go:83-108 | ... and into that node and name with some other triple never |
| ChangeMessages.ResetRoundTripIff | server/server.go:128-140 | the same for a reset message and its name |
| ChangeMessages.CutChangeIsRefused | server/server.go:83-108 | a change message without its last bytes is refused, wherever it is cut |
| ChangeMessages.CutResetIsRefused | server/server.go:128-140 | so is a reset message |
| ChangeMessages.SomeBytes | server/api.go:21-48 | both messages byte by byte |
| ChangeMessages.BroadcastChange | server/api.go:21-48 | the message is built piece by piece and queued under the counter's name, where it replaces an older one |
| ChangeMessages.RunIsCurrent | server/api.go:65-82 | in every run of stores, push/pulls into own counters and packets, each with the transmit limit of its time, the queue holds at most one message per name, and each is that of the counter as announced last |
| ChangeMessages.QueuedMessageIsCurrentIff | server/change/change.go:19-23 | ... and whoever parses it gets this node, that name and the current triple exactly when neither name holds a newline and no push/pull has changed the counter since it was announced |
| Membership.StepClimbs | Godeps/_workspace/src/github.com/hashicorp/memberlist/state.go:695-703 | while the record of another member stays, it is unchanged or strictly higher in (incarnation, alive < suspect < dead); the dead revive only at a higher incarnation |
| Membership.ChangesBounded | Godeps/_workspace/src/github.com/hashicorp/memberlist/state.go:840-844 | with incarnations up to n the number of changes of a record and its rank together stay within 3n + 2 |
| Membership.NewRecordChanges | Godeps/_workspace/src/github.com/hashicorp/memberlist/state.go:648-703 | so a new record changes at most 3n times before it is forgotten |
| Membership.StepKeepsRunning | Godeps/_workspace/src/github.com/hashicorp/memberlist/state.go:609-935 | one handler, one raise of the counter or one announcement with an incarnation drawn before keeps: joins and leaves of each name alternate, the names joined and not left are those listed, and a member that is not leaving is alive in its own list |
| Membership.RunKeepsRunning | Godeps/_workspace/src/github.com/hashicorp/memberlist/state.go:609-961 | the same over every sequence of messages, updates, leaving and reaping |
| Membership.StartIsRunning | Godeps/_workspace/src/github.com/hashicorp/memberlist/memberlist.go:309-324 | it holds from the first announcement on |
| Membership.EarlyRun | Godeps/_workspace/src/github.com/hashicorp/memberlist/memberlist.go:116-147 | whatever messages are handled before the announcement, the notifications about others are in order, and the own record, if there is one, is dead |
| Membership.AnnouncementIff | Godeps/_workspace/src/github.com/hashicorp/memberlist/memberlist.go:309-324 | after any early messages the announcement makes the member a running one exactly when no join was reported for its own name and its record, if any, is at the address announced and no newer |
| Membership.AnnouncedAfterOthers | Godeps/_workspace/src/github.com/hashicorp/memberlist/memberlist.go:116-147 | which is so when none of the early messages is about the member itself |
| Membership.EarlyAliveJoinsTwice | Godeps/_workspace/src/github.com/hashicorp/memberlist/state.go:714-786 | one early alive message about the member itself, of incarnation 1, makes it report its own join twice |
| Membership.AccusationIsOutranked | Godeps/_workspace/src/github.com/hashicorp/memberlist/state.go:811-914 | a suspect or dead message about a running member leaves it alive with an incarnation strictly above the message |
| Membership.RefutationConvinces | Godeps/_workspace/src/github.com/hashicorp/memberlist/state.go:812-832 | the refutation queued makes every peer at the same address that believes the accusation, or less, see the member alive at that incarnation |
| Reactions.OthersUntouched | Godeps/_workspace/src/github.com/hashicorp/memberlist/state.go:609-934 | a message changes the record of nobody but the member it is about |
| Reactions.AliveIsTakenIff | Godeps/_workspace/src/github.com/hashicorp/memberlist/state.go:609-787 | word that another member is alive is taken exactly when it is newer and no other address is known; then the member is listed with what it says, it is passed on, and a join or update is reported |
| Reactions.SuspicionIsTakenIff | Godeps/_workspace/src/github.com/hashicorp/memberlist/state.go:791-857 | another member is suspected after a suspicion exactly when it was, or was alive at no higher incarnation; then it has that incarnation and the suspicion is passed on |
| Reactions.DeathIsTakenIff | Godeps/_workspace/src/github.com/hashicorp/memberlist/state.go:870-934 | another member is off the list after a death exactly when it was, or its incarnation was no higher; then the death is passed on and the leave is reported |
| Reactions.StrangersAreIgnored | Godeps/_workspace/src/github.com/hashicorp/memberlist/state.go:796-799 | no suspicion or death of a member never heard of is taken |
| Reactions.NewsConvinces | Godeps/_workspace/src/github.com/hashicorp/memberlist/state.go:609-934 | what one member has taken, any peer that knows less takes and passes on too: they agree on the member |
| Reactions.AccusationIsAnsweredIff | Godeps/_workspace/src/github.com/hashicorp/memberlist/state.go:811-914 | a member that is not leaving answers an accusation exactly when it is not out of date, with the least new incarnation above it |
| Reactions.OwnNewsIsAnsweredIff | Godeps/_workspace/src/github.com/hashicorp/memberlist/state.go:714-769 | it answers word of its own life exactly when that is of a higher incarnation, or of the same with other data |
| Reactions.UpdateIsToldIff | Godeps/_workspace/src/github.com/hashicorp/memberlist/memberlist.go:355-368 | an update is taken and passed on exactly when no higher incarnation has come between, and reported when the meta data are new |
| Reactions.LeaveIsTold | Godeps/_workspace/src/github.com/hashicorp/memberlist/memberlist.go:484-499 | a member that leaves is off its own list, passes its death on and reports its leave |
| Reactions.GoneStays | Godeps/_workspace/src/github.com/hashicorp/memberlist/state.go:609-961 | and no message, update or reaping lists it again |
| Reactions.ReapForgetsIff | Godeps/_workspace/src/github.com/hashicorp/memberlist/state.go:311-332 | reaping forgets exactly the dead and changes nothing else |
| Reactions.PushUnlistsNobody | Godeps/_workspace/src/github.com/hashicorp/memberlist/state.go:952-958 | no pushed state takes a member off the list, whatever the other side calls it |
| Reactions.CalledDeadIsSuspected | Godeps/_workspace/src/github.com/hashicorp/memberlist/state.go:952-958 | but a listed member that it calls dead or suspect, at no lower incarnation, is suspected after it |
| Reactions.UnrefutedIsDeclaredDead | Godeps/_workspace/src/github.com/hashicorp/memberlist/state.go:833-934 | a member known as alive that is suspected is declared dead by the timer, taken off the list, told and reported, when it was suspected all the time until the timer looks, which it recognizes exactly then |
| MembershipRuns.RunKeepsOwned | Godeps/_workspace/src/github.com/hashicorp/memberlist/state.go:533-535 | in every run of any number of members every record, queued broadcast and message about b carries an incarnation b has reached, and there is none before b announced itself; counters are raised, records looked at and accusations handled at different times |
| MembershipRuns.OnlyOwnerRaises | Godeps/_workspace/src/github.com/hashicorp/memberlist/state.go:609-961 | no step but b's own changes b's counter, and none lowers it |
| MembershipRuns.OnItsWayIff | Godeps/_workspace/src/github.com/hashicorp/memberlist/state.go:300-307 | what a step puts on the network, and nothing else: queued broadcasts, an accusation of the record looked at, the own death, every record to every member |
| MembershipRuns.RunKeepsInOrder | Godeps/_workspace/src/github.com/hashicorp/memberlist/state.go:609-961 | in every run, whatever comes in before or after its announcement, every announced member keeps its notifications alternating and is alive in its own list unless it leaves |
| MembershipRuns.AccusedOutranks | Godeps/_workspace/src/github.com/hashicorp/memberlist/state.go:811-832 | any accusation under way in a run is refuted by a single step of the counter |
| Incarnations.IncarnationCounter.RaiseAbove | Godeps/_workspace/src/github.com/hashicorp/memberlist/state.go:812-817 | the retry loop on the 32-bit counter ends above every accusation but the last incarnation, and at which value |
| Incarnations.RefutationEndsIff | Godeps/_workspace/src/github.com/hashicorp/memberlist/state.go:893-898 | the loop can end exactly when the accusation is not of incarnation 2^32 - 1 |
| Incarnations.BoundedIsUnboundedIff | Godeps/_workspace/src/github.com/hashicorp/memberlist/state.go:737-742 | the 32-bit loop does what the unbounded counter does exactly when the counter is below its last value |
| Memberlists.MoveDeadNodes | Godeps/_workspace/src/github.com/hashicorp/memberlist/util.go:133-147 | the in-place loop that steps its index back ends, permutes, and leaves all nodes that are not dead before all dead ones, at the index answered |
| Memberlists.ShuffleNodes | Godeps/_workspace/src/github.com/hashicorp/memberlist/util.go:111-116 | the in-place shuffle permutes |
| Memberlists.Memberlist.InsertNode | Godeps/_workspace/src/github.com/hashicorp/memberlist/state.go:648-675 | a new record enters slice, map and count, which still agree, wherever the random offset puts it |
| Memberlists.Memberlist.RaiseAbove | Godeps/_workspace/src/github.com/hashicorp/memberlist/state.go:812-817 | the retry loop on the incarnation ends at the least new value above the accusation |
| Memberlists.Memberlist.Refute | Godeps/_workspace/src/github.com/hashicorp/memberlist/state.go:811-832 | the own record takes that value and the alive message about it is queued |
| Memberlists.Memberlist.AliveNode | Godeps/_workspace/src/github.com/hashicorp/memberlist/state.go:609-787 | the handler in place does what OnAlive says of the list, slice, map and count agree, and exactly a changed status is stamped; a record that stays dead as it enters has no stamp |
| Memberlists.Memberlist.SuspectNode | Godeps/_workspace/src/github.com/hashicorp/memberlist/state.go:791-857 | the handler in place does what OnSuspect says, changes at most the one record, and stamps exactly a changed status |
| Memberlists.Memberlist.DeadNode | Godeps/_workspace/src/github.com/hashicorp/memberlist/state.go:870-934 | the handler in place does what OnDead says, changes at most the one record, and stamps exactly a changed status |
| Memberlists.Memberlist.HandleAlive | Godeps/_workspace/src/github.com/hashicorp/memberlist/net.go:482-496 | an alive message, its port filled in, takes list and stamps one stamped step on |
| Memberlists.Memberlist.HandleSuspect | Godeps/_workspace/src/github.com/hashicorp/memberlist/net.go:473-480 | a suspect message takes list and stamps one stamped step on |
| Memberlists.Memberlist.HandleDead | Godeps/_workspace/src/github.com/hashicorp/memberlist/net.go:498-505 | a dead message takes list and stamps one stamped step on |
| Suspicions.RaisedIsRecognized | Godeps/_workspace/src/github.com/hashicorp/memberlist/state.go:840-845 | the message that makes a member suspect leaves a suspicion that its own timer recognizes |
| Suspicions.RecognizedIff | Godeps/_workspace/src/github.com/hashicorp/memberlist/state.go:846-858 | whatever happens until the timer looks, it recognizes the suspicion exactly when the member was suspected all the time: not when it was revived, declared dead or forgotten and then suspected again |
| Suspicions.TimerSparesIff | Godeps/_workspace/src/github.com/hashicorp/memberlist/state.go:860-866 | the accusation spares the member exactly when it is dead by then or has refuted since its incarnation was read; one with the incarnation that was checked would spare it when it has refuted since the check |
| Suspicions.DeadIsNoted | Godeps/_workspace/src/github.com/hashicorp/memberlist/state.go:870-887 | the same for a record that was forgotten, or is of any incarnation |
| Suspicions.RefutedInTheGap | Godeps/_workspace/src/github.com/hashicorp/memberlist/state.go:851-866 | so a member that refutes between check and reading is declared dead at the incarnation of its refutation, where the incarnation checked would have left it alive |
| Memberlists.Memberlist.SuspectTimeout | Godeps/_workspace/src/github.com/hashicorp/memberlist/state.go:854-866 | and declares the member dead with the incarnation that the record has by then, though it may have been changed or forgotten in between |
| Memberlists.Memberlist.MergeState | Godeps/_workspace/src/github.com/hashicorp/memberlist/state.go:938-961 | a pushed state does to list and stamps what its messages do one by one, each at its time |
| Memberlists.Memberlist.Bootstrap | Godeps/_workspace/src/github.com/hashicorp/memberlist/memberlist.go:355-368 | the handler of the own announcement with an incarnation drawn before |
| Memberlists.Memberlist.Announce | Godeps/_workspace/src/github.com/hashicorp/memberlist/memberlist.go:309-324 | raising the counter and announcing, when nothing comes between |
| Memberlists.Memberlist.DecideToLeave | Godeps/_workspace/src/github.com/hashicorp/memberlist/memberlist.go:484-492 | leaving is decided under the lock, once |
| Memberlists.Memberlist.Depart | Godeps/_workspace/src/github.com/hashicorp/memberlist/memberlist.go:495-499 | the own death is announced with the incarnation that the record has by then |
| Memberlists.Memberlist.LeaveCluster | Godeps/_workspace/src/github.com/hashicorp/memberlist/memberlist.go:475-503 | both, when nothing comes between: a member that was listed is then off its own list, its death is queued and its leave reported |
| Memberlists.Memberlist.Members | Godeps/_workspace/src/github.com/hashicorp/memberlist/memberlist.go:434-446 | the loop answers exactly the listed members, each once |
| Memberlists.Memberlist.ResetNodes | Godeps/_workspace/src/github.com/hashicorp/memberlist/state.go:311-332 | exactly the dead are forgotten, the others keep their stamps, and slice, map and count agree after cutting and shuffling |
| Memberlists.ListsCount | Godeps/_workspace/src/github.com/hashicorp/memberlist/state.go:657-672 | a slice that lists the records of a map once each has as many entries as the map |
| Memberlists.LiveRemain | Godeps/_workspace/src/github.com/hashicorp/memberlist/state.go:318-329 | after deregistration the front part of the slice lists what is left of the map, in the number stored |
| BroadcastQueue.SkippingRemovalIff | Godeps/_workspace/src/github.com/hashicorp/memberlist/queue.go:49-62 | the removal loop, which skips the entry behind each match, removes all matches exactly when no two neighbours match |
| BroadcastQueue.TransmitLimitedQueue.Invalidate | Godeps/_workspace/src/github.com/hashicorp/memberlist/queue.go:52-62 | the loop with its gap closing does what the skipping removal says, and finishes the broadcasts removed |
| BroadcastQueue.TransmitLimitedQueue.QueueBroadcast | Godeps/_workspace/src/github.com/hashicorp/memberlist/queue.go:49-67 | everything about the subject is replaced by the new entry, in transmit order |
| BroadcastQueue.GreedyFits | Godeps/_workspace/src/github.com/hashicorp/memberlist/queue.go:80-88 | the bytes counted are those of the messages with their overhead, within the limit |
| BroadcastQueue.GreedyFate | Godeps/_workspace/src/github.com/hashicorp/memberlist/queue.go:80-106 | each entry stays as it is, goes out once more, or goes out a last time and is finished |
| BroadcastQueue.GreedyConserves | Godeps/_workspace/src/github.com/hashicorp/memberlist/queue.go:89-106 | what was queued is what is kept and what was finished, as multisets |
| BroadcastQueue.GreedyPicksOnce | Godeps/_workspace/src/github.com/hashicorp/memberlist/queue.go:80-106 | nothing is sent or finished twice by one packet |
| BroadcastQueue.GreedyFills | Godeps/_workspace/src/github.com/hashicorp/memberlist/queue.go:80-106 | what a packet leaves behind would not have fitted beside what it took |
| BroadcastQueue.NewestFirst | Godeps/_workspace/src/github.com/hashicorp/memberlist/queue.go:80-88 | the newest entry is the first to go out when it fits at all |
| BroadcastQueue.GreedyInOrder | Godeps/_workspace/src/github.com/hashicorp/memberlist/queue.go:80-106 | nothing overtakes: what goes out does so from the newest to the oldest |
| BroadcastQueue.GreedySendsAll | Godeps/_workspace/src/github.com/hashicorp/memberlist/queue.go:80-106 | with room for everything, everything goes out |
| BroadcastQueue.LatestIs | Godeps/_workspace/src/github.com/hashicorp/memberlist/queue.go:133-150 | pruning keeps the newest entries, as many as allowed |
| BroadcastQueue.TransmitLimitedQueue.FillPacket | Godeps/_workspace/src/github.com/hashicorp/memberlist/queue.go:76-107 | the backwards scan with swap-remove sends, finishes and keeps what looking from newest to oldest says |
| BroadcastQueue.TransmitLimitedQueue.GetBroadcasts | Godeps/_workspace/src/github.com/hashicorp/memberlist/queue.go:71-112 | the same: each entry is sent or would not fit any more, the newest goes first when it fits, and the queue is in transmit order again |
| BroadcastQueue.TransmitLimitedQueue.Prune | Godeps/_workspace/src/github.com/hashicorp/memberlist/queue.go:133-150 | the latest maxRetain stay, the older ones are finished in order |
| BroadcastQueue.TransmitLimitedQueue.Reset | Godeps/_workspace/src/github.com/hashicorp/memberlist/queue.go:122-130 | everything is finished and the queue is empty |
| BroadcastQueue.Sort | Godeps/_workspace/src/github.com/hashicorp/memberlist/queue.go:153-167 | the order of the queue: non-increasing transmit counts, same entries |
| QueueRuns.RunIsWellKept | Godeps/_workspace/src/github.com/hashicorp/memberlist/queue.go:49-167 | in every sequence of calls, each with the limit of its time: no key twice, transmit order, everything queued is still there or finished once, and transmissions within the highest limit |
| QueueRuns.RunLimitsTransmits | Godeps/_workspace/src/github.com/hashicorp/memberlist/queue.go:80-106 | each broadcast is sent at most max(1, highest limit of the run) times for each time it was queued |
| QueueRuns.EveryMessageGoesOut | Godeps/_workspace/src/github.com/hashicorp/memberlist/queue.go:71-112 | in packets with room each message goes out once in each, until it has gone out max(1, limit) times and leaves the queue |
| Packets.GatherBroadcasts | Godeps/_workspace/src/github.com/hashicorp/memberlist/broadcast.go:72-100 | both queues are served in turn from one byte budget: what comes out is within it, and each message that is left behind would not have fitted |
| Packets.GatheredServes | Godeps/_workspace/src/github.com/hashicorp/memberlist/broadcast.go:72-100 | each message of the member list is in the packet, and each message of the delegate that is not empty behind its type byte, or there is no room left for it; the newest own message comes first when it fits |
| Packets.FrameUserMessages | Godeps/_workspace/src/github.com/hashicorp/memberlist/broadcast.go:86-97 | each message of the delegate gets its type byte |
| Packets.Gossip | Godeps/_workspace/src/github.com/hashicorp/memberlist/state.go:345-373 | every gossip packet is filled as far as the budget goes and is within the 1400-byte send buffer, plain or encrypted with either version; with messages of at least nine bytes there are at most 127 and decoding gives them back |
| Packets.GossipFits | Godeps/_workspace/src/github.com/hashicorp/memberlist/net.go:568-591 | messages within the budget make a packet within the send buffer, whether or not it is compressed and encrypted |
| Packets.PartsBound | Godeps/_workspace/src/github.com/hashicorp/memberlist/state.go:345-359 | messages of at least nine bytes are at most 127 to a packet |
| Packets.PiggybackOverrun | Godeps/_workspace/src/github.com/hashicorp/memberlist/net.go:542-599 | a direct message with others attached is at most two bytes over the buffer, compressed or not, plain or encrypted with either version, and exactly when an uncompressed one is within it |
| Packets.PiggybackOverruns | Godeps/_workspace/src/github.com/hashicorp/memberlist/net.go:542-565 | a message of 10 bytes and one of 1386 beside it, which fits the room left to the byte, make a packet of 1402 |
| Packets.Pkcs7Encode | Godeps/_workspace/src/github.com/hashicorp/memberlist/security.go:39-45 | the loop appends the padding |
| Packets.PaddingRoundTrip | Godeps/_workspace/src/github.com/hashicorp/memberlist/security.go:39-55 | unpadding undoes padding, and padding fills the last block with at most one block |
| Packets.SealedLength | Godeps/_workspace/src/github.com/hashicorp/memberlist/security.go:59-83 | the length reserved is the length produced, at most the stated overhead above the plain one |
| Compound.MakeCompoundMessage | Godeps/_workspace/src/github.com/hashicorp/memberlist/util.go:190-211 | both loops produce type byte, count, table of lengths and messages |
| Compound.DecodeCompoundMessage | Godeps/_workspace/src/github.com/hashicorp/memberlist/util.go:216-250 | the loops decode as Decode says, with its errors |
| Compound.RoundTripIff | Godeps/_workspace/src/github.com/hashicorp/memberlist/util.go:190-250 | decoding undoes making exactly when the lengths fit two bytes, the count fits one, and the doubled count does too (or the messages happen to repeat the end of the table) |
| Compound.CutKeepsWholeMessages | Godeps/_workspace/src/github.com/hashicorp/memberlist/util.go:235-248 | on any cut behind the table: the longest prefix of whole messages and the exact number missing |
| Compound.ShortTableIsAnError | Godeps/_workspace/src/github.com/hashicorp/memberlist/util.go:217-227 | on any cut in the table: the error for it |
| Compound.SomeBytes | Godeps/_workspace/src/github.com/hashicorp/memberlist/util.go:190-211 | a packet of two short messages byte by byte |
| TwosComplement.PruneSignExt | Godeps/_workspace/src/github.com/hashicorp/go-msgpack/codec/helper_internal.go:86-96 | the loop stops where the pruned form starts |
| TwosComplement.PruningKeepsValue | Godeps/_workspace/src/github.com/hashicorp/go-msgpack/codec/helper_internal.go:86-96 | only bytes are pruned that sign extension restores |
| TwosComplement.PruningIsShortest | Godeps/_workspace/src/github.com/hashicorp/go-msgpack/codec/helper_internal.go:86-96 | no fewer bytes hold the same number in two's complement |
| TwosComplement.SignExtension | Godeps/_workspace/src/github.com/hashicorp/go-msgpack/codec/time.go:118-132 | filling up with the sign does not change the number |
| TimeCodec.EncodeTime | Godeps/_workspace/src/github.com/hashicorp/go-msgpack/codec/time.go:63-107 | the moving index fills the bytes of the time, at most 15 |
| TimeCodec.DecodeTime | Godeps/_workspace/src/github.com/hashicorp/go-msgpack/codec/time.go:110-171 | reading with a moving index gives what the descriptor bits say |
| TimeCodec.TimeRoundTrip | Godeps/_workspace/src/github.com/hashicorp/go-msgpack/codec/time.go:63-171 | decoding undoes encoding for every int64 second count and every nanosecond value, up to what is kept of the zone |
| TimeCodec.TimeRoundTripIff | Godeps/_workspace/src/github.com/hashicorp/go-msgpack/codec/time.go:91-171 | the time comes back as it was exactly when its zone is UTC or an offset of whole minutes, not 0, in -8192..8191 |
| TimeCodec.TimeIsReadIff | Godeps/_workspace/src/github.com/hashicorp/go-msgpack/codec/time.go:110-171 | a time is read exactly when all bytes its descriptor announces are there, and what follows does not matter |
| TimeCodec.CutTimeIsRefused | Godeps/_workspace/src/github.com/hashicorp/go-msgpack/codec/time.go:110-171 | so none comes back with bytes missing |
| TimeCodec.TimeIsShort | Godeps/_workspace/src/github.com/hashicorp/go-msgpack/codec/time.go:63-107 | a time is at most one byte longer than any bytes that are read as it |
| TimeCodec.SomeBytes | Godeps/_workspace/src/github.com/hashicorp/go-msgpack/codec/time.go:63-107 | two times byte by byte |
| Shifts.IntTestIff | Godeps/_workspace/src/github.com/hashicorp/go-msgpack/codec/msgpack.go:400-405 | the signed shift test fails exactly outside the given bits |
| Shifts.UintTestIff | Godeps/_workspace/src/github.com/hashicorp/go-msgpack/codec/msgpack.go:455-460 | the unsigned shift test fails exactly outside the given bits |
| ByteStreams.BytesEncWriter.Grow | Godeps/_workspace/src/github.com/hashicorp/go-msgpack/codec/encode.go:253-270 | growing keeps what was written and makes room for n bytes |
| ByteStreams.BytesEncWriter.Writen1 | Godeps/_workspace/src/github.com/hashicorp/go-msgpack/codec/encode.go:238-241 | appends one byte |
| ByteStreams.BytesEncWriter.Writen2 | Godeps/_workspace/src/github.com/hashicorp/go-msgpack/codec/encode.go:243-247 | appends two bytes |
| ByteStreams.BytesEncWriter.WriteUint | Godeps/_workspace/src/github.com/hashicorp/go-msgpack/codec/encode.go:199-223 | appends the big-endian bytes of a number |
| ByteStreams.BytesEncWriter.Writeb | Godeps/_workspace/src/github.com/hashicorp/go-msgpack/codec/encode.go:225-236 | appends bytes |
| ByteStreams.BytesDecReader.Consume | Godeps/_workspace/src/github.com/hashicorp/go-msgpack/codec/decode.go:125-137 | moves the cursor, or fails at the end or with too few bytes and moves nothing |
| ByteStreams.BytesDecReader.Readn | Godeps/_workspace/src/github.com/hashicorp/go-msgpack/codec/decode.go:138-145 | takes the next n bytes off the rest, or fails |
| ByteStreams.BytesDecReader.Readb | Godeps/_workspace/src/github.com/hashicorp/go-msgpack/codec/decode.go:147-149 | fills a buffer from a position on, or fails and changes nothing |
| ByteStreams.BytesDecReader.ReadUint | Godeps/_workspace/src/github.com/hashicorp/go-msgpack/codec/decode.go:152-173 | takes a big-endian number off the rest, or fails |
| ByteStreams.TakeBack | Godeps/_workspace/src/github.com/hashicorp/go-msgpack/codec/decode.go:138-145 | what was written in front is taken off again and the rest is left |
| ByteStreams.TakesIff | Godeps/_workspace/src/github.com/hashicorp/go-msgpack/codec/decode.go:125-145 | so many bytes are taken exactly when there are as many |
| Msgpack.MsgpackEncDriver.EncodeUint | Godeps/_workspace/src/github.com/hashicorp/go-msgpack/codec/msgpack.go:141-157 | appends the bytes of the unsigned number |
| Msgpack.MsgpackEncDriver.EncodeInt | Godeps/_workspace/src/github.com/hashicorp/go-msgpack/codec/msgpack.go:120-139 | appends the bytes of the signed number |
| Msgpack.MsgpackEncDriver.WriteContainerLen | Godeps/_workspace/src/github.com/hashicorp/go-msgpack/codec/msgpack.go:237-250 | appends the bytes of the length |
| Msgpack.MsgpackDecDriver.InitReadNext | Godeps/_workspace/src/github.com/hashicorp/go-msgpack/codec/msgpack.go:536-543 | reads the descriptor once |
| Msgpack.MsgpackDecDriver.DecodeInt | Godeps/_workspace/src/github.com/hashicorp/go-msgpack/codec/msgpack.go:372-408 | reads a signed number with the overflow test, errors included |
| Msgpack.MsgpackDecDriver.DecodeUint | Godeps/_workspace/src/github.com/hashicorp/go-msgpack/codec/msgpack.go:411-463 | reads an unsigned number with the sign and overflow tests, errors included |
| Msgpack.MsgpackDecDriver.ReadContainerLen | Godeps/_workspace/src/github.com/hashicorp/go-msgpack/codec/msgpack.go:595-613 | reads a length, -1 for nil |
| Msgpack.IntRoundTripIff | Godeps/_workspace/src/github.com/hashicorp/go-msgpack/codec/msgpack.go:120-139 | every int64 comes back when it fits the bits asked for, and is an overflow otherwise |
| Msgpack.UintRoundTripIff | Godeps/_workspace/src/github.com/hashicorp/go-msgpack/codec/msgpack.go:141-157 | every uint64 comes back when it fits the bits asked for, and is an overflow otherwise |
| Msgpack.AnyWidthUint | Godeps/_workspace/src/github.com/hashicorp/go-msgpack/codec/msgpack.go:372-463 | an unsigned number spelled in any width that holds it is read, by both readings |
| Msgpack.AnyWidthInt | Godeps/_workspace/src/github.com/hashicorp/go-msgpack/codec/msgpack.go:372-463 | so is a signed one, and as unsigned it is an error exactly when it is negative |
| Msgpack.IntIsReadIff | Godeps/_workspace/src/github.com/hashicorp/go-msgpack/codec/msgpack.go:372-463 | an integer is read exactly behind the descriptors of integers, with their bytes there, and no more is consumed |
| Msgpack.SomeBytes | Godeps/_workspace/src/github.com/hashicorp/go-msgpack/codec/msgpack.go:120-250 | integers and lengths byte by byte |
| Msgpack.IntBytesShortest | Godeps/_workspace/src/github.com/hashicorp/go-msgpack/codec/msgpack.go:120-139 | no bytes read as the same signed number are fewer |
| Msgpack.UintBytesShortest | Godeps/_workspace/src/github.com/hashicorp/go-msgpack/codec/msgpack.go:141-157 | no bytes read as the same unsigned number are fewer |
| Msgpack.LenRoundTrip | Godeps/_workspace/src/github.com/hashicorp/go-msgpack/codec/msgpack.go:595-613 | a container length of each kind comes back modulo 2^32 |
| Msgpack.LenIsShortest | Godeps/_workspace/src/github.com/hashicorp/go-msgpack/codec/msgpack.go:237-250 | no header of the kind is shorter |
| Msgpack.FixLengthIff | Godeps/_workspace/src/github.com/hashicorp/go-msgpack/codec/msgpack.go:595-613 | nil is -1, and a descriptor taken for a short length gives one below the cutoff exactly when it is one |
| Msgpack.AnyDescriptorIsALength | Godeps/_workspace/src/github.com/hashicorp/go-msgpack/codec/msgpack.go:595-613 | a byte string takes every other descriptor for a length |
| Msgpack.RunRoundTrip | Godeps/_workspace/src/github.com/hashicorp/go-msgpack/codec/msgpack.go:120-157 | any run of integers and container lengths is read back, to the byte |
| Msgpack.WriteRun | Godeps/_workspace/src/github.com/hashicorp/go-msgpack/codec/msgpack.go:120-250 | one encoder driven through a run appends its bytes to the growing buffer |
| Msgpack.ReadAll | Godeps/_workspace/src/github.com/hashicorp/go-msgpack/codec/msgpack.go:372-613 | one decoder driven through a run reads it off the cursor, or fails as the items do |
| Msgpack.Transfer | Godeps/_workspace/src/github.com/hashicorp/go-msgpack/codec/encode.go:193-270 | whatever run goes through one growing buffer, of any capacity at first, comes out of one cursor over it |
| Binc.UintRoundTrip | Godeps/_workspace/src/github.com/hashicorp/go-msgpack/codec/binc.go:153-173 | every uint64 comes back through leading-byte pruning |
| Binc.IntRoundTripIff | Godeps/_workspace/src/github.com/hashicorp/go-msgpack/codec/binc.go:141-151 | an int64 comes back exactly outside -0xffffffff..-0xff800000, where pruning takes bytes of the magnitude for a sign; its bytes are read to their end in any case |
| Binc.IntFitsIff | Godeps/_workspace/src/github.com/hashicorp/go-msgpack/codec/binc.go:493-498 | asked for fewer bits, a number is an overflow exactly when it does not fit |
| Binc.UintFitsIff | Godeps/_workspace/src/github.com/hashicorp/go-msgpack/codec/binc.go:500-508 | the same without a sign |
| Binc.NegativeIsNoUint | Godeps/_workspace/src/github.com/hashicorp/go-msgpack/codec/binc.go:500-508 | a number written as negative is an error without a sign |
| Binc.MagnitudeIsShort | Godeps/_workspace/src/github.com/hashicorp/go-msgpack/codec/binc.go:125-173 | an unsigned number takes at most one byte more than any bytes that spell it, and no more up to 65535 |
| Binc.SomeBytes | Godeps/_workspace/src/github.com/hashicorp/go-msgpack/codec/binc.go:141-301 | integers and a length byte by byte |
| Binc.LenRoundTripIff | Godeps/_workspace/src/github.com/hashicorp/go-msgpack/codec/binc.go:280-301 | a length comes back exactly up to 65535: four bytes are written where three are read, eight where four are |
| BincDrivers.BincEncDriver.EncIntegerPrune | Godeps/_workspace/src/github.com/hashicorp/go-msgpack/codec/binc.go:125-139 | appends the pruned bytes behind the descriptor that counts them |
| BincDrivers.BincEncDriver.EncUint | Godeps/_workspace/src/github.com/hashicorp/go-msgpack/codec/binc.go:157-173 | appends the bytes of a magnitude |
| BincDrivers.BincEncDriver.EncodeInt | Godeps/_workspace/src/github.com/hashicorp/go-msgpack/codec/binc.go:141-151 | appends the bytes of a signed number |
| BincDrivers.BincEncDriver.EncLen | Godeps/_workspace/src/github.com/hashicorp/go-msgpack/codec/binc.go:280-301 | appends the bytes of a length |
| BincDrivers.BincEncDriver.EncodeSymbol | Godeps/_workspace/src/github.com/hashicorp/go-msgpack/codec/binc.go:196-261 | appends the string or its number and keeps the table |
| BincDrivers.BincDecDriver.DecUint | Godeps/_workspace/src/github.com/hashicorp/go-msgpack/codec/binc.go:433-462 | reads the bytes that the descriptor counts through the shared scratch buffer, of which no old byte comes into the number |
| BincDrivers.BincDecDriver.DecodeInt | Godeps/_workspace/src/github.com/hashicorp/go-msgpack/codec/binc.go:493-498 | reads a signed number with the overflow test |
| BincDrivers.BincDecDriver.DecodeUint | Godeps/_workspace/src/github.com/hashicorp/go-msgpack/codec/binc.go:500-508 | reads an unsigned number with the sign and overflow tests |
| BincDrivers.BincDecDriver.DecodeString | Godeps/_workspace/src/github.com/hashicorp/go-msgpack/codec/binc.go:576-622 | reads a string or symbol and keeps the table |
| BincSymbols.SymbolBack | Godeps/_workspace/src/github.com/hashicorp/go-msgpack/codec/binc.go:196-261 | one string: the tables stay in step, exactly its bytes are read, and it comes back exactly when it is no repetition or a recent one |
| BincSymbols.RepeatIsShort | Godeps/_workspace/src/github.com/hashicorp/go-msgpack/codec/binc.go:196-261 | a string that has a number takes at most three bytes |
| BincSymbols.PlainBack | Godeps/_workspace/src/github.com/hashicorp/go-msgpack/codec/binc.go:188-278 | a string or byte string of up to 65535 bytes written in full comes back and leaves the table alone |
| BincSymbols.StreamRoundTripIff | Godeps/_workspace/src/github.com/hashicorp/go-msgpack/codec/binc.go:196-261 | a stream is always read to the byte, and comes back exactly when every repetition is of one of the last 65536 strings numbered |
| BincSymbols.SymbolStreamRoundTrip | Godeps/_workspace/src/github.com/hashicorp/go-msgpack/codec/binc.go:576-622 | so every stream of at most 65536 different strings of two bytes or more comes back from empty tables |
| BincStreams.ItemsRoundTripIff | Godeps/_workspace/src/github.com/hashicorp/go-msgpack/codec/binc.go:141-261 | a stream of strings and integers is always read to the byte, and comes back exactly when every repeated string is one of the last 65536 numbered and no integer is in the range above |
| BincStreams.WriteItems | Godeps/_workspace/src/github.com/hashicorp/go-msgpack/codec/binc.go:141-261 | one encoder with its table, driven through a stream, appends its bytes to the growing buffer |
| BincStreams.ReadAll | Godeps/_workspace/src/github.com/hashicorp/go-msgpack/codec/binc.go:433-622 | one decoder with its table and scratch buffer reads a stream off the cursor, or fails as the items do |
| BincStreams.Transfer | Godeps/_workspace/src/github.com/hashicorp/go-msgpack/codec/binc.go:141-622 | whatever goes through one growing buffer, of any capacity at first, comes out of one cursor over it as as many items, and as the same ones under exactly that condition |

## Left out

- Rounding, NaN and infinities of counters: Up and Down are reals in the counter model and opaque 64-bit patterns in the messages, and the two are not connected.
- Wrap-around of Revision at 2^32: it is unbounded in the counter model.
- `Join`, `Load`, `Save` and restarts: they discard or replace the owner's triples, so the lag invariants do not span them.
- The replica table is one map from (owner, name) to cells instead of a map of maps; an owner with an empty inner map is not told from an absent one.
- `set` visits only live members: contributions of departed members stay, and nothing is claimed about them.
- The gob encoding of the pushed state, JSON, AES-GCM and LZW: library code; only lengths and padding are modelled, and compression is any shorter byte string.
- Delegates that this program does not install (alive, conflict, merge, ping) and the protocol version checks behind the merge delegate.
- An alive message with one to five version bytes stops the program; the handlers are modelled on the others.
- Address conflicts are only the branch that ignores the message.
- Sockets, timers, probing, indirect pings, the choice of gossip targets, logging, metrics, the API server, its client and the command line.
- The number of retransmissions, which comes from a logarithm of the cluster size: each call is given the limit of its time.
- The channel that tells a waiting caller that a broadcast is finished: only the call of `Finished` is recorded.
- Memberlists.Memberlist.Members: records are returned by reference, the copy the caller is told to make is not modelled.
- BroadcastQueue.Sort: stands for the library's sort; only order and contents are promised, not which of equals comes first.
- Compound.DecodeCompoundMessage: where the table is longer than the packet but the doubled count is not, the program reads on in the buffer or stops; the model answers PastTheEnd.
- TimeCodec.DecodeTime: where the bytes end too early the program stops or reads on in the buffer; the model answers None.
- The contents of encrypted messages, their keys and their authenticity; removing the padding checks nothing, as in the program.
- The writer to a stream and the reader from a stream, reflection, structs, maps, floats, extensions and RPC of the codec.
- ByteStreams.BytesEncWriter.WriteUint: one method for the three widths that the program spells out.
- Servers.Server.Set: nothing comes between the resets and the end of the set, between which the program releases its locks; the parts are SendResets and FinishSet, and CounterRuns interleaves them with everything else.
- Memberlists.Memberlist.LeaveCluster: nothing comes between the decision and the own death; the parts are DecideToLeave and Depart, and MembershipRuns interleaves them.
- Memberlists.Memberlist.Announce: nothing comes between the counter and the announcement; the parts are NextIncarnation and Bootstrap, of which the second has the time stamps, and MembershipRuns interleaves them.
- In MembershipRuns a suspicion may run out about any record, not only one that was suspect: what is proved holds of more runs than the program has.
- Msgpack.Transfer: the loop over items stands for the reflection that drives the encoder and the decoder in the program.
- BincStreams.Transfer: the same, and only strings written as symbols and integers are in the stream.
- The time stamps are those of one clock reading for each handler; RecognizedIff takes it that no later change of a status has the reading at which the suspicion was raised.
