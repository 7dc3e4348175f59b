# Bookkeeping of the panel, modelled and proved

The panel keeps several copies of the same facts: byte counters on remote nodes, one usage
row per e-mail in the central database, the client entries in each inbound's settings, a
client table, and a table that links clients to inbounds. Loops, snapshots and timers keep
the copies in step. These Dafny modules model that bookkeeping and prove what it keeps, over
whole runs where the claim is about runs.

| file | what it models |
|---|---|
| NodeUsage, NodeRows, NodeRuns | folding node counter snapshots into shared usage rows; which rows a snapshot keeps and what it writes; runs of many nodes |
| NodeTags, RemoteSync | matching snapshot inbounds to central ones with a tag prefix on either side; the whole sync in place |
| LocalTraffic, DelayedStart | the poll of the local core and the update of local rows; clients whose time starts with their first bytes |
| Tick | renewal and disabling, and the copies of "enabled" |
| Settings, ClientIndex, ClientDetach, ClientRuns | client rows and links rebuilt from settings; detaching one by one and in bulk |
| SubIdentity | one subscription id per e-mail, checked against a map that may be stale |
| RecordMerge | merging client records field by field, in any order |
| IpLimiter, LoginLimiter, IpHistory, Tombstones | the claim and timer protocol, the login window, the IP ban selection, the delete tombstones |
| StreamClone, ShareLink, Naming | one isolated stream per external proxy, printed links, numbered names |
| Text, Sets, Options | string operations, small facts and the option type shared by the others |

State the source updates in place is a class with methods; each method is proved against a
function of the old state, and the lemmas are about that function. Tables are maps, settings
are sequences of entries, clocks and the outcome of foreign calls are parameters.

Where a promise turns out not to hold for every input, the code is kept as it is and the
exact condition is proved instead:

- A tag with the node prefix twice is not restored by flipping it twice (`FlipTwiceIff`).
- A counter that falls to anything but zero is counted again from the bottom, in each
  direction on its own. A row then exceeds the bytes moved by at most what the falls left
  over, and a short run reaches that (`SyncCountsAtMost`, `FallOverCountsIff`,
  `FallRunExceeds`).
- A second line of an e-mail in one snapshot adds what it differs from the first, unless it
  repeats the counter or reports zero (`RepeatAddsNothingIff`).
- A renewal enables a disabled row but only the first settings entry it meets; the other
  entries of the e-mail stay disabled (`RenewalReachesAllCopiesIff`). Delayed start has the
  same shape (`CopiesStartTogetherIff`).
- A renewed client whose new date equals the clock of the disable pass is turned off in the
  same tick (`RenewedThenDisabledIff`).
- A client row is looked up by the trimmed e-mail and created under the untrimmed one. The
  guard on e-mails refuses blanks and control characters but not U+0085 and U+00A0, and
  adding or updating a whole inbound has no such guard. A client whose e-mail has such white
  space at an end is added; from then on every add to its inbound is refused, and detaching
  another client saves the settings but leaves this entry without its link
  (`UntidyEmailBlocksInbound`, `UntidyEntryComesLoose`, `LooseRun`). Settings, rows and links
  agree in every state of a run exactly when each stored e-mail is found, or created, under
  its trimmed form (`RunIsConsistentIff`).
- `DelInboundClient` given an empty key would remove every entry without a key
  (`EmptyKeyDeletesIff`). Both callers skip empty keys (web/service/client.go:737-739 and
  3064-3066), so single detaches and a bulk detach of the same clients always agree
  (`BulkDetachEqualsSingles`).
- A subscription id of white space only is checked before it is replaced by a random one, so
  two entries of one e-mail can end with two ids (`AddKeepsIdentityIff`, `StaleMapSplitsBlank`).
  Such an id enters with the settings of a whole inbound, or as U+0085 or U+00A0.
- The comment above `getAllEmailSubIDs` (web/service/inbound.go:387-388) says that an e-mail
  is locked by two different non-empty ids; the code also locks it when one of the two is
  empty, and that is what is modelled (`LockMapExact`).
- With update times that differ, a merged field depends on the order of the records exactly
  when the newest record has no value and the others disagree (`OrderFreeIff`); for equal
  update times one example shows that it can depend on it (`TiesDependOnOrder`).
- The limiter reads a client's limit and name from two spellings in two places that do not
  agree for every record (`LimitsAgreeIff`, `ClaimIsReleasedIff`). This panel always sends
  `email` and `limitIp` (database/model/model.go:448 and 456), so the other spellings come
  only from another panel (`OtherSpellings`). Tracking is exact in every state of a run
  exactly when no claim is settled for a client that lacks its name under the spelling the
  disabling code reads (`AlwaysExactIff`).

## Model

| member | source | states |
|---|---|---|
| NodeUsage.RepeatAddsNothingIff | web/service/inbound.go:1530-1592 | an e-mail that occurs again in a snapshot, under the same inbound or a later one and whatever was deleted in between, adds nothing exactly when, in each direction, it repeats its last line's counter or reports zero |
| NodeUsage.RepeatedEmailAddsOnce | web/service/inbound.go:1530-1592 | when all lines of an e-mail in a snapshot give one counter, every line after the first adds nothing and leaves the row's usage as it was |
| NodeUsage.ReportsSetBaseline | web/service/inbound.go:1530-1592 | in the middle of a sync the baseline held for an e-mail is its last line so far, or the stored one |
| NodeUsage.SurvivingRowNeverDecreases | web/service/inbound.go:1487-1611 | a usage row that is still there after a node sync has at least the usage it had |
| NodeRows.RowStaysIff | web/service/inbound.go:1487-1611 | a usage row comes through a node sync exactly when its inbound is not swept and, if that belongs to the node, every report of it has a line with the e-mail; the owner stays |
| NodeRows.BaselineStaysIff | web/service/inbound.go:1487-1611 | the node's baseline of such an e-mail is there afterwards exactly when a report lists it and no later report of its inbound lacks it, or it was there and nothing drops it |
| NodeRows.NewRowIff | web/service/inbound.go:1541-1611 | an e-mail without a row has one afterwards exactly when some report lists it and no later report of the first such inbound lacks it; the row is that inbound's |
| NodeRows.BaselinesAreLastLines | web/service/inbound.go:1561-1592 | a baseline of the node is the counter of the e-mail's last line, or the old one without a line; other nodes' baselines stay |
| NodeRows.RowsSayLastLines | web/service/inbound.go:1541-1588 | a row has the flag, total, date and reset of the e-mail's last line, and was last online at the latest of its old time and those of the lines |
| NodeRuns.SyncEventIsSyncNode | web/service/inbound.go:1274-1611 | one sync step of the run model changes the tables as the sync does; the ledger kept beside it decides nothing |
| NodeRuns.RunWithin | web/service/inbound.go:1526-1593 | in every reachable state each row is the sum of what it was credited, and no node was credited more than it moved and its falls left over |
| NodeRuns.SyncCountsAtMost | web/service/inbound.go:1526-1593 | over every interleaving of syncs of any nodes, with counters that grow or fall to any smaller value, a row holds its local bytes plus credits of at most the bytes moved plus what the falls left over |
| NodeRuns.SyncNeverOverCounts | web/service/inbound.go:1526-1593 | when counters only grow or fall to zero, a row holds at most the bytes the nodes really moved plus the local ones |
| NodeRuns.FallOverCountsIff | web/service/inbound.go:1532-1540 | after a fall of a fully accounted counter the next sync credits more than was moved exactly when the counter fell to something other than zero, namely by that value |
| NodeRuns.FallRunExceeds | web/service/inbound.go:1532-1540 | for any counter and any smaller one a run of four events from the empty panel moves the first and ends with a row that holds both, in each direction that fell |
| NodeRuns.RunConserves | web/service/inbound.go:1530-1592 | while nothing falls or is deleted, each stored baseline is what the node's credits and late report add up to |
| NodeRuns.UsageIsConserved | web/service/inbound.go:1257-1592 | row usage plus the first reports of nodes that joined later equals the stored baselines plus all local bytes |
| NodeTags.FlipTwiceIff | web/service/inbound.go:1291-1301 | flipping the prefix twice restores the tag exactly when the tag does not carry the prefix twice |
| NodeTags.GraceNeverRaises | web/service/inbound.go:1450-1468 | in the grace period after a reset no snapshot, however often it names an inbound, raises the total of its bytes above what was read at the start of the sync |
| NodeTags.InboundsSayLastEntry | web/service/inbound.go:1450-1484 | an inbound of the node has the settings of the last entry that leads to it and, outside the grace period, that entry's bytes, in it those of the last such entry that does not raise the total |
| NodeTags.IndexExact | web/service/inbound.go:1287-1301 | the tag index knows exactly the stored and flipped tags and leads from each to the id of the last inbound that has it |
| NodeTags.TagsStayUnique | web/service/inbound.go:1368-1516 | a sync keeps ids and tags unique over the inbounds of all nodes |
| NodeTags.SweepRemovesExactly | web/service/inbound.go:1487-1516 | the sweep removes a central inbound of the node exactly when no snapshot entry names its tag in either form |
| NodeTags.OtherNodesUntouched | web/service/inbound.go:1281-1285 | inbounds of other nodes and local ones come out of a sync as they were |
| NodeTags.LookupAndSweepAgreeIff | web/service/inbound.go:1368-1490 | what the lookup matches and what the sweep keeps are the same exactly for tags that are not doubly prefixed |
| NodeTags.CreatesOnlyUnmatched | web/service/inbound.go:1384-1447 | every inbound a sync creates is for an entry no central inbound matched, under the entry's tag or its prefixed form; the prefix is never put in front of a tag that already starts with it |
| NodeTags.UnmatchedTakesName | web/service/inbound.go:1384-1420 | an unmatched entry is stored under its own tag unless that is taken, then, without a prefix, under the prefixed one; after it no such name is free |
| NodeTags.CreatedSaySome | web/service/inbound.go:1421-1447 | every created inbound has the settings and bytes of an entry and was never reset |
| NodeTags.SweepForgets | web/service/inbound.go:1487-1516 | the lookup forgets exactly the tags of the swept inbounds |
| NodeTags.SecondSyncIsQuiet | web/service/inbound.go:1368-1516 | a second sync of the same snapshot creates and removes nothing |
| RemoteSync.CentralPanel.SetRemoteTraffic | web/service/inbound.go:1274-1611 | the sync in place: inbounds, rows and baselines become what the two specifications say, and the rows and baselines that were there are kept exactly as the snapshot says |
| RemoteSync.SyncKeepsExactly | web/service/inbound.go:1487-1611 | a usage row stays exactly when its inbound is not the node's, or the snapshot names its tag and lists the e-mail in every entry that leads to it; likewise its baseline |
| RemoteSync.CentralPanel.ApplyStats | web/service/inbound.go:1526-1593 | the inner loop adds each line's delta, creates missing rows and moves the baseline |
| RemoteSync.CentralPanel.DropRows | web/service/inbound.go:1595-1611 | the rows the inbound owns and the node's baselines of the given e-mails are removed, others stay; RowStaysIff says which e-mails are given |
| RemoteSync.ListingMapExact | web/runtime/remote.go:194-217 | the refreshed cache holds exactly the listed tags, each with the id of its last listing, and no empty tag |
| RemoteSync.ProbeFindsEitherForm | web/runtime/remote.go:164-173 | the lookup returns the id last listed under the tag, otherwise the id last listed under its flipped form, and fails exactly when neither is listed |
| RemoteSync.TagCache.Resolve | web/runtime/remote.go:148-217 | a cached id is returned without a refresh; otherwise the cache becomes the listing and decides; an unreachable node changes nothing |
| LocalTraffic.XrayApi.GetTraffic | xray/api.go:283-367 | a poll leaves the remembered values and the two traffic maps of the specification; the client map shows the observed growth of every e-mail |
| LocalTraffic.PollRemembers | xray/api.go:307-321 | after a poll every statistic it returned is remembered with its value, every other one as before |
| LocalTraffic.PollIsObserved | xray/api.go:307-321 | the delta shown for an e-mail is the non-negative step of its counter since the last poll, nothing at first sight or after a fall |
| LocalTraffic.TagIsObserved | xray/api.go:307-345 | the delta shown for a tag of one kind, and the kind, likewise; the panel's own tag is left out |
| LocalTraffic.UsageTable.AddClientTraffic | web/service/inbound.go:1819-1875 | rows of local inbounds grow by the shown deltas, all others stay |
| LocalTraffic.CreditedExactly | web/service/inbound.go:1819-1875 | a row of a local inbound grows by the shown bytes in each direction and was online now exactly when there are any; nothing else changes |
| LocalTraffic.RowGrowsByObservedSteps | web/service/inbound.go:1819-1875 | over any polls and restarts a local row grows by exactly the sum of the observed steps |
| LocalTraffic.LocalRowNeverOverCounts | xray/api.go:307-321 | the growth never exceeds the bytes the core moved |
| LocalTraffic.SmoothRunCountsLastMinusFirst | xray/api.go:307-321 | when the counter never falls the growth is its last value minus its first |
| DelayedStart.AdjustTraffics | web/service/inbound.go:1877-1948 | the loop over rows and entries gives what the specification says |
| DelayedStart.StartedStays | web/service/inbound.go:1897-1908 | a started row and its entries are never touched |
| DelayedStart.RowStartsIff | web/service/inbound.go:1897-1908 | a waiting row starts exactly when one of its entries is not after now, with the date of the first such entry, and later entries keep their duration |
| DelayedStart.CopiesStartTogetherIff | web/service/inbound.go:1897-1908 | row and entries agree afterwards exactly when the e-mail has one entry |
| Tick.CountedDates | web/service/inbound.go:1856-1948 | a waiting row with bytes starts exactly when a fetched inbound has an entry that can start it, and then has the date of the first such entry of the first such inbound; all other rows keep their date |
| Tick.NextExpiry | web/service/inbound.go:2000-2003 | the loop ends with the next date of the schedule |
| Tick.AdvanceIsLeast | web/service/inbound.go:2000-2003 | that date is expiry + k periods for the least k that is not before now, so less than one period ahead |
| Tick.RowsAfterRenewal | web/service/inbound.go:1956-2054 | a due row with an entry has no usage, is enabled and has its next date, and is queued once if it was disabled, never otherwise; all other rows are as before |
| Tick.RenewedExactly | web/service/inbound.go:1950-2009 | the renewed rows are those that renew, have a date that is over, are no node's and have an entry; they come out unused, enabled and with a date not before now, and nothing else of them changes |
| Tick.QueueIsRevived | web/service/inbound.go:2010-2024 | each queued client is an entry of its inbound whose row was disabled, enabled and with the next date |
| Tick.EntriesAfterRenewal | web/service/inbound.go:1992-2027 | every entry of a due e-mail in the fetched inbounds gets the date; only the first one met is enabled with a disabled row |
| Tick.RenewedCopiesAgree | web/service/inbound.go:2004-2012 | an entry of a renewed row gets the date of the row and can only be turned on; its other fields, and entries of other e-mails, stay |
| Tick.RenewalReachesAllCopiesIff | web/service/inbound.go:1996-2024 | all entries of a revived e-mail are enabled exactly when all but the revived one were |
| Tick.RenewedThenDisabledIff | web/service/inbound.go:1763-1785 | the same tick turns a renewed row off again exactly when its new date is not after the disable pass's clock |
| Tick.QuotaByDivision | web/service/inbound.go:2116-2129 | used * m >= total exactly when used >= total / m rounded up |
| Tick.PlainQueryAgrees | web/service/inbound.go:2130-2134 | with a multiplier of one the plain query selects the same rows |
| Tick.DepletedExactly | web/service/inbound.go:2105-2135 | an enabled row is depleted exactly when it is expired, or is exempt or under a setting of at most one and used its total, or is neither and used the total divided by the setting, rounded up |
| Tick.NoSpentRowStaysEnabled | web/service/inbound.go:2105-2213 | after the disable pass no enabled row is expired or over the total that its exemption and the setting allow it |
| Tick.DisabledInAllCopies | web/service/inbound.go:2158-2236 | a disabled e-mail is disabled in its row, its client row and every entry of every inbound it is attached to, and no other entry changes |
| Tick.Store.RenewInbound | web/service/inbound.go:1992-2033 | the inner renewal loop over the entries of one inbound, in place |
| Tick.Store.AutoRenewClients | web/service/inbound.go:1950-2054 | the renewal of all due rows, with client rows and links synchronized from the saved settings |
| Tick.SyncEachLinks | web/service/inbound.go:2034-2050 | every entry of a fetched inbound whose synchronization succeeded is linked with its flow, whatever the later ones did |
| Tick.Store.MarkClientsDisabledInSettings | web/service/inbound.go:2244-2289 | exactly the enabled entries with these e-mails are turned off |
| Tick.Store.DisableInvalidClients | web/service/inbound.go:2105-2239 | exactly the enabled rows that are expired or over the total their exemption and the setting allow are disabled, in all copies |
| Tick.Store.AddClientTraffic | web/service/inbound.go:1819-1948 | the add step in place: delayed starts for the rows with bytes, then the bytes, with client rows and links synchronized from the saved settings |
| Tick.Store.RenewAndDisable | web/service/inbound.go:1768-1785 | the renewal and then the disable pass, in place |
| Tick.Store.AddTraffic | web/service/inbound.go:1742-1785 | one tick adds the polled bytes, renews and disables: a row holds nothing, its usage or its usage plus its bytes; no enabled row is over, every disabled one is, and every e-mail it disabled is off in row, client row and all attached settings; each renewed row has zero usage, its next date, and is enabled exactly when that date is after the second clock |
| Tick.DepletedIsOffEverywhere | web/service/inbound.go:2158-2236 | the three copies of "enabled" agree on every depleted e-mail |
| Tick.TickIsSound | web/service/inbound.go:1763-1785 | renewal followed by disabling on plain tables: no enabled row is spent, no other row is turned off, renewed rows come out as promised |
| ClientIndex.Tables.SyncInbound | web/service/client.go:190-270 | the tables become those of the specification, up to the first refused entry; after a success with settled e-mails the rows say what the entries say |
| ClientIndex.RowsAreWritten | web/service/client.go:209-258 | the row of each entry has its enable, expiry, subId and flow, its credentials where given and the old ones otherwise, and keeps id and exemption; no other row changes |
| ClientIndex.SyncKeeps | web/service/client.go:190-270 | ids, unique e-mails and resolving links are kept, no row is lost, links of other inbounds are untouched, also on failure |
| ClientIndex.LinksExact | web/service/client.go:260-267 | after a success the inbound's links are those of its entries with an e-mail, each with that entry's flow |
| ClientIndex.EntriesHaveRows | web/service/client.go:200-258 | each entry is linked to the row of its trimmed e-mail |
| ClientIndex.SyncSucceedsIff | web/service/client.go:190-270 | for settled e-mails a synchronization succeeds exactly when they are pairwise different |
| ClientIndex.ResyncSucceedsIff | web/service/client.go:201-217 | the same entries synchronize again exactly when each is found under its trimmed e-mail and these differ |
| ClientIndex.ListForInbound | web/service/client.go:279-306 | the listing is by ascending id with the link's flow |
| ClientIndex.ListingExact | web/service/client.go:279-306 | a client is listed exactly when its row is linked to the inbound |
| ClientIndex.ListingAfterSync | web/service/client.go:190-306 | what is listed after a synchronization is exactly what was saved, with missing credentials as stored before |
| ClientIndex.ListingAscends | web/service/client.go:279-306 | the listing goes by strictly ascending id |
| ClientDetach.CompactOrphans | web/service/client.go:110-156 | keeps exactly the entries without an e-mail or with a client row, also through the equal-length shortcut |
| ClientDetach.AllFound | web/service/client.go:132-135 | as many rows found as e-mails asked for means that every e-mail was found |
| ClientDetach.DelInboundClient | web/service/client.go:3567-3623 | removes the entries with the key and compacts; an absent key changes nothing |
| ClientDetach.DeletedExactly | web/service/client.go:3567-3623 | deleting takes out exactly the entries with the key in the field of the protocol, password, e-mail, auth or id, and the orphans; without a hit nothing |
| ClientDetach.DelInboundClients | web/service/client.go:1053-1128 | removes the entries with any non-empty wanted key and compacts once |
| ClientDetach.EachIsPruned | web/service/client.go:3567-3623 | single deletes in any order come to one filter over all keys |
| ClientDetach.BatchEqualsSingles | web/service/client.go:1053-1128 | the batch leaves the list that single deletes of the same keys leave, their callers skipping empty keys |
| ClientDetach.EmptyKeyDeletesIff | web/service/client.go:3567-3623 | the single delete alone, given an empty key, changes the list exactly when some entry has no key |
| ClientRuns.UntidyEmailIsAccepted | web/service/client.go:410-424 | the guard on e-mails lets one through that the trimming changes |
| ClientRuns.AcceptedIsClean | web/service/client.go:410-441 | an e-mail is accepted exactly when it is more than white space and has no slash, blank or control character |
| ClientRuns.CleanRun | web/service/client.go:410-441 | clients that are created, attached, edited and detached never bring such a character into settings or rows |
| ClientRuns.SyncAgreesIff | web/service/client.go:190-270 | after a successful synchronization the links are those of the entries' rows exactly when each e-mail was found, or created, under its trimmed form |
| ClientRuns.NextConsistentIff | web/service/client.go:3116-3278 | one add, edit, save of an inbound or detach keeps settings, rows and links in agreement exactly when it is refused or each of its e-mails is found, or created, under its trimmed form |
| ClientRuns.RunIsConsistentIff | web/service/client.go:190-270 | each inbound's links are exactly the rows of its entries with an e-mail in every state of a run, exactly when every accepted event finds, or creates, each of its e-mails under its trimmed form |
| ClientRuns.TidyRunIsSound | web/service/client.go:201-217 | a run whose e-mails have no white space at either end meets that condition |
| ClientRuns.UntidyEmailBlocksInbound | web/service/client.go:201-217 | once such a client has been added, every later add to that inbound is refused |
| ClientRuns.UntidyEntryComesLoose | web/service/client.go:3567-3640 | and detaching another client of the inbound saves the settings, fails to synchronize them and leaves the entry without its link |
| ClientRuns.LooseRun | web/service/client.go:410-424 | from an empty panel three events with accepted e-mails lead there |
| ClientRuns.ListingShowsOwnFlow | web/service/client.go:279-306 | the listing has one client per entry with an e-mail and shows that entry's flow |
| ClientRuns.FlowSurvivesSiblings | web/service/client.go:279-306 | whatever other inbounds go through, a client is listed exactly when it is how the row of one of this inbound's entries shows that entry's own flow |
| ClientRuns.EntriesStayListed | web/service/client.go:279-306 | and every entry with an e-mail is still listed, with its own flow |
| ClientRuns.BulkDetachEqualsSingles | web/service/client.go:1053-1189 | a bulk detach and single detaches of the same clients, with or without keys for this protocol, end with the same settings in every inbound and the same links |
| SubIdentity.GetAllEmailSubIDs | web/service/inbound.go:389-420 | the loop builds the lock map |
| SubIdentity.LockMapExact | web/service/inbound.go:404-419 | the map knows exactly the named e-mails, with the subId all rows agree on, or "" |
| SubIdentity.LockMapIgnoresOrder | web/service/inbound.go:404-419 | the order of the rows does not show |
| SubIdentity.CheckEmailsExist | web/service/client.go:3078-3105 | against the map of the stored rows a payload is accepted exactly when every stored row of each of its e-mails carries the client's own non-empty subId and repeated e-mails repeat one |
| SubIdentity.AcceptableIff | web/service/client.go:3089-3102 | checking against the map is checking against the rows themselves |
| SubIdentity.AddKeepsIdentityIff | web/service/client.go:3116-3194 | an accepted add keeps one subId per e-mail, whatever random ids are drawn, exactly when no blank subId is stored for an e-mail with another entry |
| SubIdentity.FilledIffAllSpace | web/service/client.go:3138-3141 | a subId is replaced by the drawn one exactly when all its characters are white space, and nothing else of the client changes |
| SubIdentity.StaleMapIsSafe | web/service/client.go:886-944 | one map read before all targets keeps one subId per e-mail for records with a subId that is not blank, whatever flow or credential each target gives them |
| SubIdentity.StaleMapSplitsBlank | web/service/client.go:886-944 | a blank subId attached to two inbounds ends as two subIds |
| RecordMerge.TakeSecrets | database/model/model.go:611-628 | uuid, password and auth as merged and reported |
| RecordMerge.TakeConnection | database/model/model.go:629-646 | flow, security and subId as merged and reported |
| RecordMerge.TakeLimits | database/model/model.go:647-676 | limits take the larger non-zero value |
| RecordMerge.TakeNumbers | database/model/model.go:677-688 | contact id and reset as merged and reported |
| RecordMerge.TakeLabels | database/model/model.go:689-706 | reverse, comment and group as merged and reported |
| RecordMerge.TakeTimes | database/model/model.go:707-720 | enabled if either is, earliest non-zero creation, latest update |
| RecordMerge.ClientRecord.MergeClientRecord | database/model/model.go:598-722 | the record becomes the merge of the two, and exactly the changed fields, and a different uuid, are reported |
| RecordMerge.ConflictsExact | database/model/model.go:598-722 | a field is reported exactly when another value is given and wins, the uuid also when it loses, a limit when it grows, enable when it turns on |
| RecordMerge.LargestLimit | database/model/model.go:647-676 | folding gives the largest non-zero limit given |
| RecordMerge.OrderNeverMattersForLimits | database/model/model.go:647-720 | limits, enable and both times are the same in every order |
| RecordMerge.NewestWinsInEveryOrder | database/model/model.go:608-646 | with distinct update times the newest record's value wins in every order |
| RecordMerge.OrderFreeIff | database/model/model.go:608-646 | the order does not show exactly when the newest record has a value or the others agree |
| RecordMerge.TiesDependOnOrder | database/model/model.go:608-616 | with equal update times two orders of the same three records give two uuids |
| IpLimiter.LimitsAgreeIff | 3x-ui-glass/ip_limiter.py:135-203 | for which records the limit used when fetching is the one enforced |
| IpLimiter.OtherSpellings | 3x-ui-glass/ip_limiter.py:135-203 | two records of another panel: one tracked under a name nothing releases, one held to no address at all |
| IpLimiter.TrackedIffOneHolder | 3x-ui-glass/ip_limiter.py:165-211 | in every interleaving whose settled claims carry their names an e-mail is tracked exactly when one claim, timer or restore holds it, and never two |
| IpLimiter.UnsoundLeaks | 3x-ui-glass/ip_limiter.py:165-186 | settling a claim without the name leaves its e-mail tracked with nothing to release it |
| IpLimiter.AlwaysExactIff | 3x-ui-glass/ip_limiter.py:165-211 | an e-mail is tracked exactly when one holds it in every state of a run, exactly when every settled claim carries its name |
| IpLimiter.ClaimIsReleasedIff | 3x-ui-glass/ip_limiter.py:172-185 | a failed disable gives the claim back exactly when key and name are the same |
| IpLimiter.DisablingTurnsOff | 3x-ui-glass/ip_limiter.py:103-108 | a disabling call that reaches the panel leaves the claimed client off there with everything else as fetched and touches no other record; one that does not reach it touches none |
| IpLimiter.OffUntilTouched | 3x-ui-glass/ip_limiter.py:165-186 | once off, a client stays off in every run until a restore of it reaches the panel or someone edits it there |
| IpLimiter.DisabledStaysOff | 3x-ui-glass/ip_limiter.py:165-186 | as long as its timer has not put it back and no one edits it, a disabled client is off with everything else as fetched, in every interleaving |
| IpLimiter.RestoreReturnsFetchedRecord | 3x-ui-glass/ip_limiter.py:103-170 | a restore writes the record fetched at the claim with only enable set |
| IpLimiter.DisableThenRestoreRoundTrips | 3x-ui-glass/ip_limiter.py:103-108 | disabling and restoring an enabled record cancel out |
| IpLimiter.ThreadsDrain | 3x-ui-glass/ip_limiter.py:165-186 | without new claims the threads finish in a bounded number of steps and then nothing is tracked |
| IpLimiter.WorkCanProceed | 3x-ui-glass/ip_limiter.py:165-186 | until then some thread can take a step |
| IpLimiter.Limiter.CheckAndEnforce | 3x-ui-glass/ip_limiter.py:188-211 | the loop with other threads between its steps is a run of the protocol and claims exactly the due clients; the run is sound when these carry their names, and every due client whose call reached the panel is off there at the end unless a timer restored it or someone edited it |
| IpLimiter.DueExactly | 3x-ui-glass/ip_limiter.py:194-211 | a pass sets out to disable exactly the e-mails that were not tracked and were seen from more addresses than the enforced limit |
| LoginLimiter.Limiter.Allow | web/controller/login_limiter.go:41-60 | refuses exactly when the history has a block younger than the cooldown with no later success |
| LoginLimiter.Limiter.RegisterFailure | web/controller/login_limiter.go:62-81 | blocks exactly when the failures since the last success or block inside the window, with this one, reach the maximum |
| LoginLimiter.Limiter.RegisterSuccess | web/controller/login_limiter.go:83-87 | forgets the key and nothing else |
| LoginLimiter.PruneLoginFailures | web/controller/login_limiter.go:93-99 | keeps the failures from the cutoff on, in order |
| LoginLimiter.PruneRecent | web/controller/login_limiter.go:93-99 | pruning at an earlier cutoff never changes what a later cutoff sees |
| LoginLimiter.RefusedIffLastBlock | web/controller/login_limiter.go:41-60 | only the last block decides |
| LoginLimiter.KeysAgreeIff | web/controller/login_limiter.go:89-91 | when two address and name pairs share a key |
| IpHistory.MergeClientIps | web/job/check_client_ip_job.go:217-234 | the two loops build the merged map |
| IpHistory.MergeIsLatest | web/job/check_client_ip_job.go:217-234 | each address has its latest time not before the cutoff, and none without one |
| IpHistory.RepeatedEntryLosesTime | web/job/check_client_ip_job.go:219-224 | an address stored twice would keep the later entry even when older |
| IpHistory.PartitionLiveIps | web/job/check_client_ip_job.go:249-263 | live and historical addresses, each list complete, distinct and by ascending time |
| IpHistory.ScanJob.UpdateInboundClientIps | web/job/check_client_ip_job.go:339-455 | what is stored, what is banned and what is returned, with each early return |
| IpHistory.ScanSplitsLive | web/job/check_client_ip_job.go:383-432 | kept and banned split the live addresses, at most limit kept, none banned newer than a kept one, none historical |
| IpHistory.ScanStores | web/job/check_client_ip_job.go:434-440 | distinct addresses with their merged times, all but the banned, none stale |
| IpHistory.BlobIsLatestSinceBan | web/job/check_client_ip_job.go:383-445 | over any run with a clock that never goes back, in which any scan may fail to open the ban log or to save, the stored list is each address's latest sighting since its last ban, by the saved scans and inside the last one's window |
| Tombstones.Registry.Tombstone | web/service/client.go:158-171 | the deletion is added to the history the registry stands for |
| Tombstones.Registry.IsTombstoned | web/service/client.go:173-188 | true exactly when the last deletion of the e-mail is at most 90 seconds old, whatever was forgotten in between |
| StreamClone.CloneStreamForExternalProxy | sub/subService.go:1004-1016 | new objects for the stream, its TLS map and settings, saying the same |
| StreamClone.ApplyExternalProxyTLSToStream | sub/subService.go:1018-1042 | the stream says what it did with the proxy's TLS values applied; nothing outside its own maps is written |
| StreamClone.BuildStream | sub/subClashService.go:152-175 | one iteration writes to no object that existed before |
| StreamClone.GetProxies | sub/subClashService.go:130-183 | each stream depends only on the base stream and its proxy, and no two share a map that is written to |
| StreamClone.GenHy | sub/subJsonService.go:411-455 | the hysteria outbound changes only four top-level entries of its own stream |
| StreamClone.GetConfig | sub/subJsonService.go:171-216 | the same isolation, while the inbound itself is left with the last proxy's address |
| StreamClone.StreamSaysWhatProxyAsks | sub/subClashService.go:159-175 | the TLS part is gone when TLS is switched off, starts empty when it is switched on and is the old one otherwise; with TLS it then carries an external proxy's values |
| StreamClone.StreamKeepsOtherEntries | sub/subClashService.go:159-175 | the security is the forced one, the reality settings go only where the loop drops them, and every other entry is that of the base |
| StreamClone.HysteriaSaysItsEntries | sub/subJsonService.go:411-455 | the hysteria outbound says its own entries and leaves the others and the TLS part |
| StreamClone.TlsSaysWhatProxyAsks | sub/subService.go:1018-1042 | each given value of the proxy, and nothing else, reaches the TLS part; the fingerprint also its settings, whose other entries stay |
| ShareLink.EncodeUserinfo | sub/subService.go:512-514 | replacing the pluses of a query escape gives the percent encoding with %20 for spaces |
| ShareLink.DecodeEscaped | sub/subService.go:512-514 | decoding gives back every byte string |
| ShareLink.EscapedIsPlain | sub/subService.go:512-514 | escaped text holds none of the delimiters |
| ShareLink.PrintedAsItself | sub/subService.go:512-514 | exactly the ASCII letters, digits and the four marks - _ . ~ are printed as themselves |
| ShareLink.QueryParses | sub/subService.go:1159-1178 | splitting the query at & and = and decoding gives the parameters back, in any order of names |
| ShareLink.AppendQueryAndFragment | sub/subService.go:1156-1189 | the link followed by the shown parameters and the remark, each only when there is one |
| ShareLink.LinkRoundTrips | sub/subService.go:454-503 | taking a printed link apart gives back scheme, password, address, parameters and remark |
| ShareLink.LinkRoundTripsIff | sub/subService.go:570-675 | it does so exactly when the address holds no question mark and no number sign |
| ShareLink.PrintedParameters | sub/subService.go:1156-1178 | what is read from a printed link: every parameter but, when left out, the three TLS fields, with the security overridden when an override is given |
| Naming.NumberUntilFree | sub/subClashService.go:109-115 | the loop ends, with the first free candidate |
| Naming.EnsureUniqueProxyNames | sub/subClashService.go:102-119 | all names end non-empty and pairwise different, in place |
| Naming.NamesAreUnique | sub/subClashService.go:102-119 | the names given are non-empty and pairwise different |
| Naming.NamesKeepFreeBases | sub/subClashService.go:102-119 | every name starts with its base and is the base when no earlier proxy has it |
| Naming.BaseSays | sub/subClashService.go:102-129 | the base is the given name, or type, server and port, or the position when one of these is missing |
| Naming.AheadShrinks | sub/subClashService.go:110-115 | each taken candidate that is passed is not met again |
| Naming.NextAvailableCopiedEmail | web/service/inbound.go:1122-1134 | the first numbered e-mail that is free ignoring case, which is then occupied |
| Naming.CopyEmails | web/service/inbound.go:1182-1215 | the e-mails of a copy differ, ignoring case, from all in use and from each other |
| Text.DecimalInjective | sub/subClashService.go:114-114 | printed numbers are different |
| Text.LowerCharExact | web/service/client.go:873-873 | each capital letter is mapped to the small letter at its place in the alphabet and every other character is left alone |
| Text.TrimTakesSpace | web/service/client.go:201-202 | trimming takes only white space and only at the ends |
| Text.TrimEmptyIff | web/service/client.go:202-204 | nothing is left exactly of white space |

## Left out

- gRPC, HTTP, files and processes: calls to Xray and to nodes appear as steps that succeed or fail, or not at all.
- JSON, YAML and SQL text: settings are entries, tables are maps; trimming of quotes around JSON texts in SQL and the parsing of stat names and log lines are not modelled.
- Integer width and floats: all numbers are unbounded.
- Case mapping: only A-Z; other scripts are left alone.
- Automatic timestamps and column defaults of the database layer, among them the default that stores a client created disabled as enabled.
- NodeUsage: the flag for structural changes and the second phase that rebuilds client rows from a snapshot (web/service/inbound.go:1613-1740); deletions by others enter a run as purges.
- RemoteSync.CentralPanel.SetRemoteTraffic: failing database calls roll the whole sync back and are not modelled; nil snapshot inbounds are left out of the list.
- Tick: the byte counters of whole inbounds, disabling whole inbounds, and pushing disabled clients to nodes; errors of an earlier pass, which the source overwrites with the result of a later one.
- ClientIndex: limits, labels and times of a client row follow the same always-or-when-non-empty rule as the modelled fields and are not repeated.
- ClientIndex.SyncSucceedsIff: stated for e-mails that are found or created under their trimmed form; the remaining ones are covered by ResyncSucceedsIff.
- ClientRuns: deleting a client row, renames in the middle of an update, and the subId checks of an add, which are those of SubIdentity.
- ClientDetach.DelInboundClient: usage rows, addresses and node calls for the removed clients.
- SubIdentity: updates, which do not check the subId when the e-mail stays the same.
- RecordMerge: the values shown in a conflict report.
- RecordMerge.NewestWinsInEveryOrder: needs distinct update times and a non-empty value; TiesDependOnOrder and OrderFreeIff say what happens otherwise.
- IpLimiter: a timer that cannot be started, and address flushing.
- LocalTraffic.TagIsObserved: for tags of one kind; an inbound and an outbound of the same tag share an entry of the map.
- LoginLimiter: concurrent calls, which the source runs one at a time under a lock.
- IpHistory.PartitionLiveIps: the order among equal times, which the source leaves open; insertion stands for append and sort.
- Tombstones: the clock never goes back between calls.
- StreamClone: lists of protocols arrive split and trimmed; maps below the TLS settings are shared as in the source.
- ShareLink: which parameters an inbound has; the address part is kept as one piece.
- Text.Trim: white space above U+00FF.
