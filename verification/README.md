# Net-SNMP agent: verified model of its registry and request engine

This project models five state-keeping parts of the Net-SNMP agent in Dafny and proves what each of them
promises, over every input and every run. Where the agent changes linked structures, arrays and fields in
place, so does the model: classes with the agent's own fields, methods with the agent's own branches, and
each method proved against a value (a tree of slices, a history, a map) about which the lemmas speak.

- **MIB registration tree** (`Oids`, `SliceTree`, `Subtrees`, `Registry`). Registrations are intervals of
  object identifiers. Overlapping ones cut each other into slices, each with a stack of competing
  registrations, held in a two-dimensional linked structure; a cache of adjacent pairs and a
  first-difference offset speed up lookup. The main result is that after any run of registrations and
  unregistrations a lookup answers what section 7.1.4.1 of RFC 2741 says about the plain set of live
  registrations.
- **Request engine.** `Scheduler`: exclusive execution of SETs, with the queue and the delegated list that
  share one `next` field. `SetMachine`: the phases of a SET with immediate and delegated handlers.
  `GetNext`: the search over slices (section 4.2.2 of RFC 3416). `GetBulk`: the clamped repeat count, the
  bulk cache, its transposition and its truncation (section 4.2.3 of RFC 3416). `Grouping`: varbinds into
  chains per subtree.
- **Index allocator** (`IndexRegistry`): sorted chains of sorted chains with cross links, as a map from
  (OID, value) to a status (sections 7.1.2 and 7.1.3 of RFC 2741).
- **Object monitor** (`Monitor`): delivery by priority, with reference counts.
- **Trap translation** (`Traps`): version 1 to 2 and back (sections 3.1 and 3.2 of RFC 3584).

A method with several linked-structure updates is split where the source has one function, so that each
step is small: `Registry.SplitGrid`, `Registry.LinkGrid` and `Registry.UnlinkGrid`, for instance, say what
one split, one load step and one unload do to the pointers. Ghost fields (`g`, `chains`, `log`) hold the
value a structure stands for.

Handlers are arbitrary: in `Scheduler` their decisions are nondeterministic; in `SetMachine` they are any
function of the phase and the request or chain, with the answers in any order; in `GetNext` they are any
function of the question and the time that keeps to the contract `GetNext.Honest`.

## Where the code falls short

The model keeps what the code does. In seven places that is not what it is meant to do; for each there is a
lemma or contract with the exact condition, and a concrete case.

1. Loading a registration in front of the very first slice does not move the context's first pointer
   (agent/agent_registry.c:915-931), which then stays on a node that is no longer the head of its stack.
   `Registry.Mib.Register`: all lookups stay authoritative if and only if the registration is `Anchored`, which
   a caller can check: a name other than {0}, or a priority not below 127. `Registry.Mib.RightUnlessStale` says
   which lookups go wrong, and by `Registry.Mib.Unregister` such a registration cannot be taken back.
   `Registry.StaleFirst` is a case.
2. GETNEXT does not come to an end while handlers answer endOfMibView under the unchanged name and that name
   is outside the view: the access check turns the answer into a retry (agent/snmp_agent.c:2502-2566), and the
   same slice is asked the same again (agent/snmp_agent.c:2845-2856). Handlers do give that answer
   (agent/helpers/table_container.c:654). `GetNext.PassStep`: a pass gets a varbind ahead exactly unless the
   answer is of this kind, or a retry. `GetNext.Session.HandleRequest`: with handlers that have a habit for each
   slice, the search ends if and only if no requested name is `Blocked`, which says of the slices, the
   instances and the view where the search would be caught. `GetNext.Circling` (a requested name outside the
   view) and `GetNext.CirclingBehind` (one in view, and an instance behind it that is not) are cases.
3. A suspended SET pass forgets an error that only a handler's return code signalled
   (agent/snmp_agent.c:3083, 3202-3281). `SetMachine.SilentFailure`: exactly when a failed SET is answered with
   noError; `SetMachine.CommitExactly`: exactly when COMMIT runs; `SetMachine.NothingLost`: neither goes wrong
   if a request is marked wherever an error is returned. `SetMachine.SilentSet` and `SetMachine.OverlookedSet`
   are cases. And a commitFailed or undoFailed takes the place of any other error in every phase, not only in
   COMMIT and UNDO (agent/snmp_agent.c:3576-3580). `SetMachine.WorkedExactly`: exactly when that spoils the
   status of a pass; `SetMachine.Session.Run`: never if handlers are `Proper`, that is, say so in those phases
   only. `SetMachine.SpecialWins`: always if the first chain says so in one of the first three phases and none
   of its requests fails; `SetMachine.MixedSet` is a case.
4. GETNEXT passes over a slice whose two ends share no first sub-identifier
   (agent/snmp_agent.c:2302-2345), so its instances are never found. `GetNext.Overlooked`: exactly when that
   spoils an answer; by `GetNext.SearchableSlice` it takes a slice headed by a name of one sub-identifier.
   `GetNext.OverlookedHappens` is a case.
5. The GETBULK truncation does not look at the last column (agent/snmp_agent.c:710-732), although its comment
   speaks of a full row, so it can cut off real answers. `GetBulk.TruncationLoses`: exactly when;
   `GetBulk.TruncationExample` is a case. Row 0 takes its endOfMibView names from varbind i of the original
   request, not n + i (agent/snmp_agent.c:657-662). `GetBulk.FirstName`: exactly when that makes a difference;
   `GetBulk.FirstNameMatters` is a case.
6. A version 1 trap with an over-long enterprise is not translated, and a version 2 trap with the undefined
   standard number 7 becomes an enterprise-specific version 1 trap. `Traps.RoundTripV1`, `Traps.RoundTripV2`:
   exactly when a header is restored; `Traps.LongEnterprise` and `Traps.UndefinedTrap` are cases.
7. The search for an index value compares by a difference cut to an int (agent/agent_index.c:222-227).
   `IndexRegistry.SeekRight`: for 32-bit values it is right exactly if the differences from the smaller values
   and from the next one fit. `IndexRegistry.TakenForNew` is a case: an allocated value is taken for a new one.

## Model

| member | source | states |
|---|---|---|
| `Oids.CompareLl` | snmplib/snmp_api.c:7260-7302 | The comparison is the lexicographic order, and the offset is the 1-based position of the first difference, or one more than the shorter length when one OID is a prefix of the other |
| `Oids.Compare` | snmplib/snmp_api.c:7203-7242 | The three-way result is negative, zero or positive exactly as the lexicographic order says |
| `Oids.SkipSound` | agent/agent_registry.c:1026-1043 | The comparison skip is sound: a slice start that differs from the previous one beyond the point where the name left that one lies below the name, and its difference from the name is at the same place |
| `Oids.Region` | agent/agent_registry.c:1191-1203 | The interval from a name to the name with its last sub-identifier incremented contains exactly the OIDs with that name as a prefix |
| `Oids.Transitive` | snmplib/snmp_api.c:7203-7242 | The order is transitive |
| `Oids.Trichotomy` | snmplib/snmp_api.c:7203-7242 | The order is total and irreflexive |
| `SliceTree.AuthoritativeUnique` | agent/agent_registry.c:891-925 | Among live registrations at most one is authoritative for an OID (longest name, then smallest priority) |
| `SliceTree.HeadIsAuthoritative` | agent/agent_registry.c:1081-1094 | In a tree that stands for a set of registrations, the head of the slice containing an OID is the authoritative registration of section 7.1.4.1 of RFC 2741 |
| `SliceTree.NowhereIsUnregistered` | agent/agent_registry.c:1081-1094 | An OID in no slice lies under no registration |
| `SliceTree.AtExists` | agent/agent_registry.c:2208-2234 | The slices cover exactly the OIDs whose first sub-identifier is 0, 1 or 2 |
| `SliceTree.AtUnique` | agent/agent_registry.c:656-758 | No OID lies in two slices |
| `SliceTree.SplitRepresents` | agent/agent_registry.c:656-758 | Splitting a slice keeps the tiling, the stack order and the extent of every registration |
| `SliceTree.PlacedOrdered` | agent/agent_registry.c:891-903 | Insertion at the place the two loops find keeps a stack strictly ordered by (name length descending, priority ascending) |
| `SliceTree.InsertRepresents` | agent/agent_registry.c:891-944 | One load step extends the loaded registration by exactly the slice and changes no other registration's extent |
| `SliceTree.RemoveRepresents` | agent/agent_registry.c:1611-1663 | One unload shrinks the registration by exactly the slice and changes no other registration's extent |
| `SliceTree.MergeStep` | agent/agent_registry.c:891-944 | In the middle of a load, a clash is seen exactly when the registration was already complete before; otherwise the step keeps every invariant, and if all others are anchored it goes in front of the very first head exactly for a registration that is not |
| `SliceTree.SplitStep` | agent/agent_registry.c:656-758 | A split keeps every invariant in the middle of a load and leaves all earlier slices alone |
| `SliceTree.ClashIsPresence` | agent/agent_registry.c:905-925 | An entry of equal length and priority in a stack is the very registration that is being loaded: equal-length registrations have equal or disjoint intervals |
| `SliceTree.RemainingAt` | agent/agent_registry.c:852-960 | The measure of the recursive load: the number of slices that start beyond a point is determined by the slice the point lies in |
| `SliceTree.PieceRest` | agent/agent_registry.c:947-960 | When the new range goes past the slice, the rest of it is again a loadable piece and the termination measure falls |
| `SliceTree.HeadOfFirst` | agent/agent_registry.c:915-931 | A registration goes in front of the very first head exactly when it is not anchored, that is, when it is {0} with a priority below the default |
| `SliceTree.SecondIsRoot` | agent/agent_registry.c:915-931 | A single registration that is not anchored stands at the head of the first stack, and the root right below it |
| `SliceTree.GoneStep` | agent/agent_registry.c:1719-1764 | A registration whose remaining extent starts at a slice that lacks it is nowhere in the tree: stopping the unregistration there is right |
| `SliceTree.FrontierStep` | agent/agent_registry.c:1750-1764 | Removing from one slice moves the frontier to exactly that slice's end |
| `SliceTree.LiveAtName` | agent/agent_registry.c:1697-1735 | A registration is live exactly when it is in the slice that contains its name, and that slice then starts at the name |
| `SliceTree.SettledHolds` | agent/agent_registry.c:768-963 | Between operations the tree stands for exactly the set of live registrations, each with its whole interval |
| `SliceTree.InitialSettled` | agent/agent_registry.c:2208-2234 | The tree after setup meets every invariant |
| `SliceTree.ScanFinds` | agent/agent_registry.c:1081-1094 | A plain linear scan for the last start not beyond an OID, with a test of the end, finds the slice of the OID or shows that there is none |
| `Subtrees.Subtree.ChangeNext` | agent/agent_registry.c:548-558 | Sets next and gives the successor its first difference from this node, changing nothing else |
| `Subtrees.Subtree.ChangePrev` | agent/agent_registry.c:563-573 | Sets prev and the offset from it, keeping the offset when there is no predecessor |
| `Subtrees.SplitNode` | agent/agent_registry.c:656-758 | Splitting one node splits its whole stack: every old node ends at the point and points at the new head, every new node carries the same registration above the point, and both neighbours are relinked with right offsets; null exactly beyond the end |
| `Subtrees.ChangeNextAll` | agent/agent_registry.c:746-749 | Every member of a stack gets the new next, and the successor's offset is that of the last one |
| `Subtrees.ChangePrevAll` | agent/agent_registry.c:750-755 | Every member of a stack gets the new prev and its offset from it |
| `Registry.SplitGrid` | agent/agent_registry.c:656-758 | On the linked grid a split realises exactly the split of the slice: next, prev, children and offsets of every node included |
| `Registry.MergeGrid` | agent/agent_registry.c:891-944 | On the linked grid one load step either reports a clash and changes no node, or realises exactly the insertion |
| `Registry.LinkGrid` | agent/agent_registry.c:927-944 | Linking a node at its place, as head or below, keeps every next, prev, children and offset right |
| `Registry.UnlinkGrid` | agent/agent_registry.c:1611-1663 | Unlinking a node, head or not, realises exactly the removal and keeps the node's own next and children |
| `Registry.FindSlot` | agent/agent_registry.c:891-903 | The two loops stop at the first entry that does not rank above the new registration |
| `Registry.FindIn` | agent/agent_registry.c:1725-1735 | The search down a stack finds the registration exactly when it is there, with its predecessor |
| `Registry.Mib.CacheAdd` | agent/agent_registry.c:184-200 | The pair goes into the next place of the ring, with wrap-around, and every live cache entry stays an adjacent pair |
| `Registry.Mib.CacheFind` | agent/agent_registry.c:234-258 | The last live entry whose first start is not beyond the name, an adjacent pair, with the right comparison result; none is found only if all live entries start beyond the name |
| `Registry.Mib.Remember` | agent/agent_registry.c:1045-1051 | The new pair replaces the entry that was hit, or is added |
| `Registry.Mib.InvalidateCache` | agent/agent_registry.c:263-270 | Afterwards no entry is live |
| `Registry.Mib.Walk` | agent/agent_registry.c:1025-1055 | From any start not beyond the name, the walk with the comparison skip stops where a plain scan of all slices stops |
| `Registry.Mib.FindPrev` | agent/agent_registry.c:987-1056 | With cache and skip, the node before the stopping point is the one a plain linear scan gives, for every OID and every reachable state, from the first stack or from any stack that the caller names |
| `Registry.Mib.Start` | agent/agent_registry.c:1000-1011 | Starting from the pair that the cache knows leads to the same end as starting from the first stack |
| `Registry.Mib.Find` | agent/agent_registry.c:1081-1094 | The result is the node of the stack whose slice contains the OID, from the first or the named stack on, or null exactly when there is none |
| `Registry.Mib.Split` | agent/agent_registry.c:656-758 | A split in the registry changes no registration's extent and yields exactly the two halves |
| `Registry.Mib.Merge` | agent/agent_registry.c:891-944 | A duplicate is reported exactly when the registration was complete, and then nothing at all has changed; otherwise the registry keeps pointing at the root's node |
| `Registry.Mib.Approach` | agent/agent_registry.c:852-864 | Loading finds the slice at the new start, splitting if needed, and splits nothing if the registration is a duplicate |
| `Registry.Mib.Load` | agent/agent_registry.c:768-963 | The recursive load terminates; it succeeds exactly if the registration is new, then extends it by exactly the new range; otherwise the tree and every node are unchanged. It may leave the first pointer on a node that is no longer the head |
| `Registry.Mib.LoadWithin` | agent/agent_registry.c:880-944 | The case of a range that ends within, or with, its slice: split the slice, if needed, and merge |
| `Registry.Mib.LoadBeyond` | agent/agent_registry.c:947-960 | The case of a range that goes past the slice: split the new node, load the first part, then the rest |
| `Registry.Mib.Register` | agent/agent_registry.c:1132-1302 | Succeeds exactly if (name, priority) is not live, then adds exactly it to the live set; otherwise tree and nodes are unchanged; the cache size is restored. All lookups are authoritative afterwards if and only if they were before and the registration is anchored; if it is not, the first pointer names the second node of the first stack, the root's. While the pointer is out of date the same holds for names behind the first slice |
| `Registry.Mib.Registered` | agent/agent_registry.c:915-931 | With all other registrations anchored, all lookups are right if and only if this one is; otherwise the first pointer is one node too low |
| `Registry.Mib.RightUnlessStale` | agent/agent_registry.c:1081-1094 | A lookup is right exactly if the first pointer is, or the OID lies behind the first slice |
| `Registry.Mib.FirmIff` | agent/agent_registry.c:408-423 | The first pointer names the head of the first stack exactly while all registrations are anchored |
| `Registry.StaleFirst` | agent/agent_registry.c:915-931 | It happens: after setup and the registration of {0} at priority 126 a lookup of {0} answers the root's registration, although the new one is authoritative, and unregistering the new one fails |
| `Registry.Mib.Unload` | agent/agent_registry.c:1611-1663 | Removes the registration from exactly one slice and leaves the heads of all others |
| `Registry.Mib.Sweep` | agent/agent_registry.c:1750-1764 | Unloading from slice to slice until one lacks the registration removes it everywhere and removes nothing else |
| `Registry.Mib.Withdraw` | agent/agent_registry.c:1737-1764 | The first unload and the sweep together remove exactly the registration |
| `Registry.Mib.Unregister` | agent/agent_registry.c:1697-1798 | Succeeds exactly if the registration is live and anchored, then removes exactly it from the live set; a failure changes no node and leaves the cache size at 0. So one that is not anchored is never found again |
| `Registry.Mib.SeenFromEntry` | agent/agent_registry.c:1725-1735 | The search down the stack, from where lookup enters it, meets a registration exactly if that is live and anchored |
| `Registry.Mib.Locate` | agent/agent_registry.c:1719-1735 | Finds the registration on the slice of its own name, exactly if it is live and anchored |
| `Registry.Mib.Resolve` | agent/agent_registry.c:1081-1094 | In any stable state a lookup answers the authoritative live registration exactly where lookups are right, and the node at the first pointer elsewhere; null only if no live name is a prefix |
| `Registry.Mib.constructor` | agent/agent_registry.c:2208-2234 | After setup the live set is {0}, {1}, {2} |
| `Registry.Replay` | agent/agent_registry.c:1132-1798 | After any run of registrations and unregistrations the live set is what plain set insertion and deletion give, except that what is not anchored stays; and a lookup answers with its authoritative member, for all names if everything registered was anchored, and otherwise for exactly those behind the first slice. Once something was not anchored, the run touches nothing else below {0} |
| `Scheduler.Exclusive` | agent/snmp_agent.c:3632-3666 | Over any history, no other request starts between a SET's claim and its completion |
| `Scheduler.SetStartsAlone` | agent/snmp_agent.c:3632-3666 | Over any history, a SET starts only when the delegated list is empty |
| `Scheduler.ClaimHolds` | agent/snmp_agent.c:1941-1945 | A claim lasts until that SET is wrapped up |
| `Scheduler.AllServed` | agent/snmp_agent.c:3061-3107 | Over any history: when no answers are left lying, every request that was answered has been completed since, or taken up again to wait once more, and a GET has been completed |
| `Scheduler.StartStep` | agent/snmp_agent.c:3632-3700 | Starting a request keeps all facts about the run, if nobody else holds the claim and a SET is alone |
| `Scheduler.DelegateStep` | agent/snmp_agent.c:1707-1722 | Putting a started request on the delegated list keeps every request in exactly one place |
| `Scheduler.QueueStep` | agent/snmp_agent.c:1820-1852 | Queueing an arrival keeps every request in exactly one place and the arrival order |
| `Scheduler.ResumeStep` | agent/snmp_agent.c:3062-3090 | Taking one request off the delegated list keeps the facts; a delegated SET was the only one there |
| `Scheduler.ArriveStep` | agent/snmp_agent.c:3600-3666 | An arrival with a new transaction id is on neither list and behind all that wait |
| `Scheduler.Agent.ChainHas` | agent/snmp_agent.c:1696-1705 | True exactly if the session is on the delegated list |
| `Scheduler.Agent.TransactionKnown` | agent/snmp_agent.c:3181-3191 | True exactly if a delegated session has the transaction id |
| `Scheduler.Agent.AddDelegated` | agent/snmp_agent.c:1707-1722 | The session becomes the head of the delegated list and nothing else moves |
| `Scheduler.Agent.AddQueued` | agent/snmp_agent.c:1820-1852 | The session becomes the end of the queue, by the walk to the last node |
| `Scheduler.Agent.Start` | agent/snmp_agent.c:3668-3671 | Starting records exactly one start, permitted by the claim |
| `Scheduler.Agent.WrapUp` | agent/snmp_agent.c:1930-1945 | Completion ends the claim exactly if this session held it |
| `Scheduler.Agent.Process` | agent/snmp_agent.c:3668-3703 | A started request is either wrapped up or becomes the head of the delegated list, and a claim that stays belongs to the one delegated session |
| `Scheduler.Agent.HandleRequest` | agent/snmp_agent.c:3600-3704 | Both for an arrival and for a popped request: queue behind a claim, claim and queue a SET while others are pending, or run; every request stays in exactly one place. It is started in this call unless it is an arrival that meets a claim, or a SET that meets delegated requests; then it is the last of the queue |
| `Scheduler.Agent.Unlink` | agent/snmp_agent.c:3071-3078 | Taking a node out of the delegated list removes exactly that node |
| `Scheduler.Agent.CheckDelayed` | agent/snmp_agent.c:3202-3281 | A resumed request ends, or has to wait once more at the head of the delegated list; a GET always ends; the claim ends exactly if its holder is done |
| `Scheduler.Agent.Visit` | agent/snmp_agent.c:3066-3105 | One step of the scan keeps its predecessor pointer right even when the session is put back at the head |
| `Scheduler.Agent.CheckDelegated` | agent/snmp_agent.c:3061-3107 | One scan resumes exactly the sessions that were done, once each and in order, keeps the others in order, leaves the re-delegated ones in front, none of them a GET, and no answers unserved |
| `Scheduler.Agent.Poll` | agent/snmp_agent.c:3114-3174 | The two assertions of the program hold; a poll keeps the whole invariant; every delegated request whose answers were in is done afterwards, or delegated with its handlers at work again (a GET is done); those still outstanding keep their order, behind the others; if nothing is delegated afterwards, the queue is empty and no claim is left (no request is stuck) |
| `Scheduler.Agent.Pop` | agent/snmp_agent.c:3158-3164 | The head of the queue, and nothing else, leaves it |
| `Scheduler.Agent.ClaimHead` | agent/snmp_agent.c:3140-3155 | A SET at the head of the queue gets the claim if there is none |
| `Scheduler.Agent.Arrive` | agent/snmp_agent.c:3600-3704 | An arrival with a new transaction id keeps the whole invariant; it is started in this call unless there is a claim, or it is a SET and requests are delegated, and then it is the last of the queue |
| `Scheduler.Agent.Complete` | agent/snmp_agent.c:3064-3066 | The answers of a delegated request are in: it waits for the next scan, and nothing else changes |
| `Scheduler.Agent.Run` | agent/snmp_agent.c:3114-3174 | After any run of arrivals, completions and polls: the history is legal, requests started in arrival order, each is in exactly one of delegated list, queue and done, and both lists are acyclic. After any run that ends with a poll, every request that was ever answered has been completed or taken up again since, every answered GET is completed, and all delegated requests have handlers at work |
| `SetMachine.FourRuns` | agent/snmp_agent.c:3502-3583 | A complete SET goes through RESERVE1 FREE, RESERVE1 RESERVE2 FREE, RESERVE1 RESERVE2 ACTION UNDO or RESERVE1 RESERVE2 ACTION COMMIT, and nothing else |
| `SetMachine.Verdict` | agent/snmp_agent.c:3552-3558 | A complete SET is a success exactly if it came to COMMIT and COMMIT left no error |
| `SetMachine.CommitOnlyIfClean` | agent/snmp_agent.c:3502-3583 | COMMIT runs if and only if no earlier pass left an error, where a request's own error status always counts |
| `SetMachine.CommitExactly` | agent/snmp_agent.c:3502-3583 | For any script of the handlers: COMMIT runs exactly if none of the first three phases marks a request, and none returns an error unless it is the first to wait |
| `SetMachine.NothingLost` | agent/snmp_agent.c:3502-3598 | If a request is marked wherever an error is returned, COMMIT runs exactly if no error came up in the first three phases, and a failed SET leaves an error |
| `SetMachine.FailingMarks` | agent/snmp_agent.c:2934-2971 | After a run of passes some request carries an error exactly if one was marked in one of them |
| `SetMachine.LastMark` | agent/snmp_agent.c:2934-2958 | After a run of passes a request carries the error it was marked with last, and none exactly if it was never marked |
| `SetMachine.Course` | agent/snmp_agent.c:3502-3583 | Every pass of a complete run follows from the one before and from what the handlers do in its phase |
| `SetMachine.SilentFailure` | agent/snmp_agent.c:3202-3281 | For any script of the handlers: a failed SET is answered with noError exactly if they only return an error in one of the first three phases, mark no request, and the clean-up after it is the first to wait |
| `SetMachine.OverlookedCode` | agent/snmp_agent.c:3202-3281 | If COMMIT runs in spite of a handler's error return code, that pass was the first one to wait and no request carried an error in it |
| `SetMachine.SilentSet` | agent/snmp_agent.c:3691-3695 | It happens: a SET that fails with an error returned in RESERVE1 and a delegated FREE ends with status noError |
| `SetMachine.OverlookedSet` | agent/snmp_agent.c:3083-3090 | It happens: a SET whose RESERVE1 returns an error and is delegated runs COMMIT |
| `SetMachine.GatheredAll` | agent/snmp_agent.c:2934-2971 | After gathering over all chains, the index is that of the least failing request and the status is that request's, whatever justified index was there before |
| `SetMachine.GatheredMore` | agent/snmp_agent.c:2960-2971 | Gathering chain by chain is gathering over their union |
| `SetMachine.GatheredStands` | agent/snmp_agent.c:2986-3029 | What was gathered from earlier chains stands when the handlers of a later chain run |
| `SetMachine.Ran` | agent/snmp_agent.c:3502-3583 | A pass that does not wait leaves index and status as the history says |
| `SetMachine.Pause` | agent/snmp_agent.c:3585-3597 | Suspending a pass, which clears the status the first time, keeps what is needed to recompute it |
| `SetMachine.Resumed` | agent/snmp_agent.c:3083-3090 | The two gatherings after a wait restore index and status from the requests alone |
| `SetMachine.FinalOn` | agent/snmp_agent.c:2986-3044 | One more chain, gathered and called, extends the account of where the final result comes from; earlier chains keep their part |
| `SetMachine.WorkedUnmarked` | agent/snmp_agent.c:3562-3583 | An immediate pass in which no request tells of an error comes to the first value returned, or in a clean-up leaves the status as it was |
| `SetMachine.WorkedExactly` | agent/snmp_agent.c:3573-3580 | An immediate pass leaves the right status exactly if no request tells of an error, or what came up first is no commitFailed or undoFailed, or is the gathered error itself |
| `SetMachine.WorkedLeaves` | agent/snmp_agent.c:3562-3583 | An immediate pass leaves the right status, whatever the requests say, if handlers say commitFailed and undoFailed only where they belong |
| `SetMachine.OwedPaused` | agent/snmp_agent.c:3691-3695 | A pass that has to wait owes noError if it is the first, and else the first value returned or the status before it, should no request turn out to fail |
| `SetMachine.ToldResumed` | agent/snmp_agent.c:3202-3281 | The two gatherings after a wait leave the right status, for any handlers |
| `SetMachine.FreeTells` | agent/snmp_agent.c:3576-3580 | A SET that ends in FREE with a failing request is answered with the error of the least one, if handlers are proper |
| `SetMachine.SpecialWins` | agent/snmp_agent.c:3576-3580 | If they are not: a commitFailed or undoFailed that the first chain signals without a failing request takes the place of every other error and stays through the clean-up |
| `SetMachine.MixedSet` | agent/snmp_agent.c:3576-3580 | It happens: a SET whose only failing request is marked wrongType is answered with commitFailed, though COMMIT never ran |
| `SetMachine.Session.CheckRequestsStatus` | agent/snmp_agent.c:2934-2958 | One chain: without a specific error the least failing index among those seen, with one the last carrier of that error |
| `SetMachine.Session.CheckAllRequestsStatus` | agent/snmp_agent.c:2960-2971 | Over all chains: without a specific error the least failing index, with one the last carrier of it, chain after chain |
| `SetMachine.Session.CallHandlers` | agent/snmp_agent.c:2993-2999 | The handlers of one chain answer or delegate exactly its requests, and mark them, as scripted for the phase |
| `SetMachine.Session.Answer` | agent/snmp_agent.c:3061-3107 | One delegated request gets its answer; nothing else changes |
| `SetMachine.Session.HandleVarRequests` | agent/snmp_agent.c:2973-3044 | Every request is replied to as the handlers of its chain have it for the phase, and the errors are gathered; the final result is what came up at the first chain where something did: the status gathered by then, or else the value returned, and noError exactly if nothing came up at any chain |
| `SetMachine.Session.CheckForDelegated` | agent/snmp_agent.c:1674-1694 | True exactly if some request is delegated |
| `SetMachine.Session.ChooseMode` | agent/snmp_agent.c:3502-3560 | The next phase is the one the history determines, and the phases make progress |
| `SetMachine.Session.HandleSet` | agent/snmp_agent.c:3502-3583 | One phase adds exactly one pass to the history, with what the handlers do in it, or the machine finishes; the status after it is the final result if that is commitFailed or undoFailed, or if nothing was gathered, and else the gathered one |
| `SetMachine.Session.HandleSetLoop` | agent/snmp_agent.c:3585-3597 | Terminates; runs phases until one waits or the machine finishes |
| `SetMachine.Session.HandleRequest` | agent/snmp_agent.c:3600-3700 | A fresh SET either waits, in a state from which the right status will be recomputed, or finishes |
| `SetMachine.Session.CheckDelayedRequest` | agent/snmp_agent.c:3202-3281 | A resumed SET waits again or finishes, with every pass told of rightly by the status it left; request errors are never cleared |
| `SetMachine.Session.Run` | agent/snmp_agent.c:3502-3598 | For any handlers and any order of the answers the SET ends, after one of the four phase sequences, as the handlers determine, with the requests marked as they say. After every pass that waited, in which no request failed, or with handlers that say commitFailed and undoFailed only in COMMIT and UNDO, the status is: in COMMIT commitFailed and in UNDO undoFailed if a request carries it; else that of the least failing request (in an immediate COMMIT or UNDO the requests play no part); else noError if the pass was the first to wait; else the first value returned in chain order, or in a clean-up the status before it. It succeeds exactly if COMMIT left no error; and if a request is marked wherever an error is returned, COMMIT runs exactly if no error came up before, and a failed SET leaves an error |
| `GetNext.HiddenHasNothing` | agent/snmp_agent.c:2302-2345 | A slice that the search skips contains nothing that can be found and seen |
| `GetNext.Between` | agent/snmp_agent.c:2308-2316 | Everything between two OIDs has their common prefix |
| `GetNext.SoundNext` | agent/snmp_agent.c:2801-2860 | Moving to the next slice, asking for its start inclusively or keeping the name, overlooks nothing |
| `GetNext.SoundSkip` | agent/snmp_agent.c:2318-2344 | Skipping hidden slices overlooks nothing |
| `GetNext.Found` | agent/snmp_agent.c:3284-3396 | An answer in the slice and in view is the right answer, and the varbind is finished |
| `GetNext.Unseen` | agent/snmp_agent.c:3284-3396 | An answer outside the view is asked past, exclusively, and that is progress |
| `GetNext.Nothing` | agent/snmp_agent.c:3284-3396 | When the slice has nothing more, and the answer is not one that asks for the same again, the search moves on with progress, or ends with endOfMibView rightly |
| `GetNext.PassStep` | agent/snmp_agent.c:3401-3499 | Every honest answer makes the varbind finished and right, or open and sound; and the varbind is finished or has a smaller measure exactly unless its handlers asked to be called again or said endOfMibView under the unchanged name outside the view |
| `GetNext.Stalled` | agent/snmp_agent.c:2839-2856 | Such an answer leaves the varbind with the same slice and as much to search, under the same name unless a retry moved it |
| `GetNext.BlockedStep` | agent/snmp_agent.c:3415-3492 | For handlers with a habit: a pass leaves a blocked search blocked and any other not so, and only a blocked one can get no further |
| `GetNext.SameDoomed` | agent/snmp_agent.c:3415-3492 | A pass over all varbinds leaves the set of those whose search is blocked as it was |
| `GetNext.NoneDoomed` | agent/snmp_agent.c:3427-3436 | When nothing is open after the checks, no search was blocked |
| `GetNext.Progress` | agent/snmp_agent.c:3401-3499 | A pass over all varbinds keeps them all sound, never raises the sum of their measures, and lowers it unless every open varbind got such an answer |
| `GetNext.FirstAsk` | agent/snmp_agent.c:2744-2790 | The first assignment of a requested name to a slice overlooks nothing |
| `GetNext.Overlooked` | agent/snmp_agent.c:2302-2345 | The answer is right among all instances exactly if no instance in an unsearchable slice comes after the name and before everything that can be found |
| `GetNext.SearchableSlice` | agent/snmp_agent.c:2308-2316 | A slice headed by a name of two or more sub-identifiers is always searchable |
| `GetNext.OverlookedHappens` | agent/snmp_agent.c:2302-2345 | When {1} is registered with a handler of its own, an instance below it is never found |
| `GetNext.Session.CreateSubtreeCache` | agent/snmp_agent.c:2569-2795 | Every varbind is assigned to a slice from which nothing is overlooked, or is finished |
| `GetNext.Session.HandleVarRequests` | agent/snmp_agent.c:2973-3044 | Each open varbind, and no other, is replied to as the handlers of its slice answer its question |
| `GetNext.Session.CheckForDelegated` | agent/snmp_agent.c:1674-1694 | True exactly if an open varbind is still delegated |
| `GetNext.Session.CheckAcm` | agent/snmp_agent.c:2502-2566 | Values outside the view, and no others, are turned into another question |
| `GetNext.Session.CheckResults` | agent/snmp_agent.c:3284-3396 | Each varbind is judged by itself; the count is 0 exactly if none is to be asked again |
| `GetNext.Session.ReassignRequests` | agent/snmp_agent.c:2801-2860 | Exactly the open varbinds go on, in the same slice or the next visible one |
| `GetNext.Session.Review` | agent/snmp_agent.c:3401-3499 | The reviews after a pass finish every varbind, or lower the measure unless every open varbind was answered without getting it ahead; a varbind that is stuck is asked again |
| `GetNext.Session.GetNextLoop` | agent/snmp_agent.c:3401-3499 | Ends with every varbind answered, or with some varbind delegated, or when the agent stops, after exactly as many passes as it was running for; the latter only after more passes than there was to search, not counting those that got no varbind ahead, of which forthcoming handlers allow at most one. With handlers that have a habit for each slice the blocked varbinds stay the same: with any it is not done, without any no pass is lost |
| `GetNext.Session.FixEndOfMibView` | agent/snmp_agent.c:741-754 | Afterwards every varbind is a right answer, endOfMibView under the original name |
| `GetNext.Session.Answer` | agent/snmp_agent.c:3061-3107 | A delegated answer that keeps the contract keeps the session sound; one in line with the slice's habit blocks and frees nothing |
| `GetNext.Session.HandleRequest` | agent/snmp_agent.c:3600-3704 | A finished request has for every varbind the first visible instance strictly after the name, or endOfMibView under that name. For handlers that have a habit for each slice (the first candidate, and without one endOfMibView or nothing), answer at once, and are given more passes than there can be to search: the request finishes if and only if no requested name is blocked, that is, meets a slice without a candidate in view whose handlers say endOfMibView, under a name outside the view. Forthcoming handlers always finish, obstinate ones never; it waits only with some varbind delegated |
| `GetNext.Circling` | agent/snmp_agent.c:3415-3492 | It happens: with {1 5} registered, empty and outside the view, a request for the successor of {1 5 2} ends only when the agent stops, however long that takes |
| `GetNext.CirclingBehind` | agent/snmp_agent.c:3415-3492 | It happens behind a name in view: with one instance {1 5 1}, outside the view, a request for the successor of {1 4} ends only when the agent stops, although nobody is obstinate about {1 4} |
| `GetNext.FirstDoomed` | agent/snmp_agent.c:2744-2790 | The varbinds blocked at the beginning are those whose requested name is blocked in the first slice it is searched for in |
| `GetNext.Session.AfterCall` | agent/snmp_agent.c:3488-3491 | After a call forthcoming handlers got ahead with every varbind they answered, and an obstinate handler's varbind is stuck |
| `GetNext.AtMost` | agent/snmp_agent.c:3401-3499 | The bound on what there is to search for so many varbinds |
| `GetNext.Session.CheckDelayedRequest` | agent/snmp_agent.c:3202-3281 | The same for a request that was delegated, any number of times: it waits again only with some varbind delegated; with blocked varbinds it is not done, without any it does not run until the agent stops, and they stay the same in between. With every answer in, prompt handlers that have a habit, and more passes than there can be to search, it is done if and only if no search is blocked |
| `GetBulk.MaxAnswers` | agent/snmp_agent.c:2616-2651 | The answer limit is the greatest number within the configured one (100 if none is), the message size and INT_MAX / pointer size |
| `GetBulk.Clamp` | agent/snmp_agent.c:2595-2674 | For every request and configuration: repeats * r <= maxresponses <= INT_MAX / pointer size, maxresponses is the greatest number within all limits, and repeats are lowered only to the configured number or the most that fit |
| `GetBulk.Repeat` | agent/snmp_agent.c:2703-2726 | One varbind becomes a linked block of exactly the given number of nodes, the first of them itself, written to the next slots of the cache |
| `GetBulk.Pdu.CreateBulkCache` | agent/snmp_agent.c:2683-2740 | The fill loop writes exactly repeats * r slots within the allocation; the list is the non-repeaters followed by the blocks; with zero repeats it is exactly the non-repeaters |
| `GetBulk.Pdu.ExpandOne` | agent/snmp_agent.c:2702-2726 | One step of the loop with repetitions: one more block, in list and cache |
| `GetBulk.Pdu.DropOne` | agent/snmp_agent.c:2727-2738 | One step without repetitions: one varbind less, the cache untouched |
| `GetBulk.Pdu.KeepOne` | agent/snmp_agent.c:2693-2694 | One step for a varbind that is asked for once: it stays |
| `GetBulk.Pdu.Drop` | agent/snmp_agent.c:2727-2738 | Removes exactly one varbind from the list |
| `GetBulk.FlattenAt` | agent/snmp_agent.c:2697-2726 | Slot i * repeats + j of the cache is repetition j of varbind i |
| `GetBulk.BlocksMakeGrid` | agent/snmp_agent.c:2697-2726 | What the fill loop leaves in the cache is the grid that the reordering expects |
| `GetBulk.Pdu.Layout` | agent/snmp_agent.c:2683-2740 | The list and cache after the fill loop are what the reordering expects, with column i headed by varbind n + i |
| `GetBulk.RowsLinked` | agent/snmp_agent.c:678-696 | After relinking, the list runs through the cache row by row |
| `GetBulk.RowsHold` | agent/snmp_agent.c:678-696 | The row-major list holds every varbind of those rows exactly once, and nothing else |
| `GetBulk.RowsAt` | agent/snmp_agent.c:678-696 | Position j * r + i of the list is repetition j of varbind i: the list is the transposed cache |
| `GetBulk.LinkColumn` | agent/snmp_agent.c:678-683 | Every node of a column points at its neighbour in the next column |
| `GetBulk.LinkLast` | agent/snmp_agent.c:693-696 | Every node of the last column but the last points at the first column of the next row; the last one keeps its link |
| `GetBulk.Weave` | agent/snmp_agent.c:678-696 | Both loops together relink the whole grid and nothing else |
| `GetBulk.FixedAt` | agent/snmp_agent.c:656-668 | An endOfMibView entry takes the name of the entry before it in its column |
| `GetBulk.FixedRightly` | agent/snmp_agent.c:645-669 | In a fixed column every real answer is what the search found, and every other entry is endOfMibView under the name of the last real answer above it, or under the name asked for if there is none |
| `GetBulk.FirstName` | agent/snmp_agent.c:657-662 | Two names from the original request give the same column exactly if they are equal or row 0 is a real answer: when taking varbind i, not n + i, makes a difference |
| `GetBulk.FirstNameMatters` | agent/snmp_agent.c:657-662 | It happens: for a blank column the two names give different responses |
| `GetBulk.FixColumn` | agent/snmp_agent.c:645-669 | In one column every real answer stays; every other entry becomes endOfMibView under the name of the last real answer above it, or under the name asked for |
| `GetBulk.FixNames` | agent/snmp_agent.c:643-670 | The same for all columns, without interference |
| `GetBulk.TruncationLoses` | agent/snmp_agent.c:710-732 | For columns that stay at endOfMibView: real answers are cut off exactly if there is more than one column and some row that passes the test is followed by an answer in the last column; and the cut never falls in front of a row whose first column is not exhausted |
| `GetBulk.LastingWhen` | agent/snmp_agent.c:656-668 | The fixed columns stay at endOfMibView exactly if the search gave each of them answers first and then only blank or endOfMibView entries |
| `GetBulk.TruncationExample` | agent/snmp_agent.c:710-732 | It happens with two columns, one exhausted and one not |
| `GetBulk.ExamineRow` | agent/snmp_agent.c:711-727 | The walk along the links tests the first column and every other one but the last, and ends at the row's last varbind |
| `GetBulk.Pdu.Truncate` | agent/snmp_agent.c:710-732 | The list is cut to whole rows, up to and including the first row that passes the test |
| `GetBulk.Pdu.Reorder` | agent/snmp_agent.c:615-733 | From the column-major cache to an acyclic row-major list behind the non-repeaters, every real answer kept and every end named after the last answer above it in its column, cut to whole rows; without repeaters the list is unchanged |
| `GetBulk.Pdu.GetBulk` | agent/snmp_agent.c:615-733 | A whole GETBULK, from the request list to the response, whatever the search finds: the varbinds asked for once with what was found for them, then whole rows, each varbind once, up to the first row that passes the test; every repetition with a name and not at endOfMibView is in its column exactly as found, every other one is endOfMibView under the name of the last such result above it, or under the name of varbind i of the request |
| `GetBulk.KeptDistinct` | agent/snmp_agent.c:710-732 | No varbind is twice on the list that is left |
| `Grouping.SameKey` | agent/snmp_agent.c:2415-2437 | Two subtrees share a chain key exactly if they are the same or have the same non-zero global cache id |
| `Grouping.OneChain` | agent/snmp_agent.c:2478-2485 | A request is on the chain of its key and on no other key's |
| `Grouping.ChainsApart` | agent/snmp_agent.c:2478-2485 | Chains of different keys share no request |
| `Grouping.ChainSorted` | agent/snmp_agent.c:2478-2485 | Chains are in increasing index order if requests are added in it |
| `Grouping.ExactlyOneChain` | agent/snmp_agent.c:2412-2492 | Every added request is on exactly one chain, at exactly one place |
| `Grouping.Together` | agent/snmp_agent.c:2412-2492 | Two requests are on one chain if and only if their subtrees have the same key |
| `Grouping.ChainOrder` | agent/snmp_agent.c:2412-2492 | Each chain is in increasing index order |
| `Grouping.Arranging` | agent/snmp_agent.c:2412-2492 | The specified grouping, read off the requests and their subtrees without keys |
| `Grouping.AddOld` | agent/snmp_agent.c:2478-2485 | Appending to the chain of its key keeps the grouping |
| `Grouping.AddNew` | agent/snmp_agent.c:2436-2464 | A new chain for a key that has none keeps the grouping |
| `Grouping.LinkLast` | agent/snmp_agent.c:2478-2485 | Linking behind the end node extends that chain, both ways, and no other |
| `Grouping.Session.LocalCacheId` | agent/snmp_agent.c:396-405 | A local id is a chain of that global id, and -1 means there is none |
| `Grouping.Session.FindChain` | agent/snmp_agent.c:2415-2437 | Whatever stale cacheid the subtree carries, the chain found is the right one, and -1 means there is none |
| `Grouping.Session.AddVarbind` | agent/snmp_agent.c:2412-2492 | One request is added to the grouping under its subtree's key |
| `Grouping.Session.Group` | agent/snmp_agent.c:2801-2860 | Grouping all requests gives linked chains: each request with a subtree is on exactly one chain, at one place; two are on the same chain exactly if their subtrees are the same or share a non-zero global cache id; requests without a subtree are on none; and each chain is in increasing index order if the requests are |
| `IndexRegistry.DifferenceSound` | agent/agent_index.c:222-227 | The difference of two values survives being cut to an int exactly if it fits in one |
| `IndexRegistry.DifferenceFails` | agent/agent_index.c:222-227 | One more and it does not |
| `IndexRegistry.SeekRight` | agent/agent_index.c:219-248 | On a sorted list of 32-bit values the search stops where the value is or belongs, and tells which, exactly if the differences from the smaller values and from the next one fit in an int |
| `IndexRegistry.TakenForNew` | agent/agent_index.c:219-268 | It goes wrong: with -1, 2^31 - 2 and -2^31 allocated in that order, the search for 2^31 - 2 stops in front of -2^31 as if the value were not there |
| `IndexRegistry.NeverTwice` | agent/agent_index.c:249-268 | A granted value is in nobody's hands, and a NEW value exceeds every remembered one |
| `IndexRegistry.RefusedWhen` | agent/agent_index.c:249-268 | A call is refused exactly if it asks for a value that somebody holds; a granted value is the one asked for, and new or unused |
| `IndexRegistry.GivenBack` | agent/agent_index.c:206-268 | A value that its session gives back can be granted again: remembered, by value or as ANY unless a smaller one is unused; forgotten, the map is as before it was granted, and NEW grants it again |
| `IndexRegistry.StaysTaken` | agent/agent_index.c:156-598 | Over any run, a value stays with its session and is granted to nobody until that session unregisters it or is closed |
| `IndexRegistry.KeysUnique` | agent/agent_index.c:429-449 | No two entries have the same OID and value |
| `IndexRegistry.PlaceSorted` | agent/agent_index.c:429-432 | Insertion into a chain keeps both levels strictly sorted and adds exactly the entry |
| `IndexRegistry.WedgeSorted` | agent/agent_index.c:433-449 | A new chain at its place keeps both levels strictly sorted and adds exactly the entry |
| `IndexRegistry.CutSorted` | agent/agent_index.c:578-594 | Removal from a chain keeps both levels strictly sorted and removes exactly the entry |
| `IndexRegistry.WithoutSorted` | agent/agent_index.c:580-594 | Removal of a chain's only entry removes exactly the chain |
| `IndexRegistry.ValuesOf` | agent/agent_index.c:178-196 | The values of an OID in the map are exactly those of its chain |
| `IndexRegistry.NoValues` | agent/agent_index.c:178-196 | An OID at which the search stops early has no values |
| `IndexRegistry.RelinkChain` | agent/agent_index.c:442-446 | Every member of one chain, and no other entry, gets the new next OID |
| `IndexRegistry.LinkInside` | agent/agent_index.c:429-432 | An entry linked behind another extends that chain and takes over its next OID |
| `IndexRegistry.PutFirst` | agent/agent_index.c:433-449 | A new head of a chain: the preceding chain's cross links all point at it |
| `IndexRegistry.PutChain` | agent/agent_index.c:437-449 | A new chain: the preceding chain's cross links all point at it, and its own at the next chain |
| `IndexRegistry.Registry.FindOid` | agent/agent_index.c:178-190 | Stops at the first chain not before the OID, with its predecessor |
| `IndexRegistry.Registry.FindValue` | agent/agent_index.c:219-248 | Stops at the first value for which the difference in an int is not positive, with its predecessor and that difference, for all values |
| `IndexRegistry.Registry.FoundRight` | agent/agent_index.c:219-248 | For a comparable value the search along the chain stops where the value is or belongs |
| `IndexRegistry.Registry.FindAny` | agent/agent_index.c:206-218 | Finds the first unused entry, unless a new value is wanted; otherwise ends behind the last |
| `IndexRegistry.Registry.RegisterIndex` | agent/agent_index.c:156-451 | The call grants what sections 7.1.2 and 7.1.3 of RFC 2741 say of the map, records exactly that, and keeps both lists sorted and all links right |
| `IndexRegistry.Registry.RegisterThis` | agent/agent_index.c:219-268 | A given value is granted exactly if nobody holds it |
| `IndexRegistry.Registry.RegisterAny` | agent/agent_index.c:206-218 | ANY reuses the least unused value, NEW and ANY without one take the last value plus one |
| `IndexRegistry.Registry.AppendNext` | agent/agent_index.c:329-345 | The new value is appended behind the last one |
| `IndexRegistry.Registry.InsertInside` | agent/agent_index.c:429-432 | Adds exactly the entry to the map, in the middle or at the end of a chain |
| `IndexRegistry.Registry.InsertFirst` | agent/agent_index.c:433-449 | Adds exactly the entry to the map, at the head of a chain |
| `IndexRegistry.Registry.InsertChain` | agent/agent_index.c:437-449 | Adds exactly the entry to the map, as a chain of its own |
| `IndexRegistry.Registry.UnregisterIndex` | agent/agent_index.c:493-598 | Refuses exactly what is not allocated or belongs to another session; otherwise marks the value unused, or forgets it, and changes nothing else |
| `IndexRegistry.Registry.RemoveInside` | agent/agent_index.c:578-579 | Removes exactly the entry, inside a chain |
| `IndexRegistry.Registry.RemoveFirst` | agent/agent_index.c:580-594 | Removes exactly the entry, at the head of a chain, with all cross links to it moved |
| `IndexRegistry.Registry.UnregisterIndexBySession` | agent/agent_index.c:478-490 | Releases exactly the session's values |
| `Monitor.WantedOnce` | agent/object_monitor.c:632-664 | A notification owes each watcher with a matching event exactly one delivery, and no other watcher any |
| `Monitor.OwedOnce` | agent/object_monitor.c:598-668 | Over distinct notifications, each (notification, matching watcher) is owed exactly once |
| `Monitor.OwedConcat` | agent/object_monitor.c:598-668 | What two batches of notifications owe adds up |
| `Monitor.InsertOrderly` | agent/object_monitor.c:565-590 | Insertion in front of the first lower priority keeps the ready list in priority order, first-in first among equals |
| `Monitor.InsertOf` | agent/object_monitor.c:565-590 | Insertion there puts a callback behind its equals, and leaves the order of every priority as it was |
| `Monitor.OneOrder` | agent/object_monitor.c:565-590 | A list of descending priorities is determined by the order within each priority |
| `Monitor.CountInsert` | agent/object_monitor.c:632-664 | A new placeholder raises its header's count by one and no other's |
| `Monitor.CountFirst` | agent/object_monitor.c:326-347 | Taking the first placeholder lowers its header's count by one and no other's |
| `Monitor.CountPositive` | agent/object_monitor.c:343-346 | The count is positive exactly while a placeholder of the header is outstanding |
| `Monitor.Monitor.Register` | agent/object_monitor.c:441-508 | Refused exactly for a watcher with equal priority and data; otherwise inserted in priority order behind its equals, and nothing else changes |
| `Monitor.Monitor.Notify` | agent/object_monitor.c:265-278 | The notification goes to the front of the pending list |
| `Monitor.Monitor.CheckRegistered` | agent/object_monitor.c:528-560 | Gives the object's watchers and the first of them that watches the event, if any |
| `Monitor.Monitor.InsertReady` | agent/object_monitor.c:565-590 | The placeholder goes behind all ready ones of the same or a higher priority and before all others, which keep their places |
| `Monitor.Monitor.AddCallbacks` | agent/object_monitor.c:632-664 | Adds exactly the owed placeholders, those of each priority behind the ready ones of that priority and in the order of the watchers; refs follows |
| `Monitor.Monitor.MoveOne` | agent/object_monitor.c:605-665 | One pending notification turns into exactly what it owes, in the order of its watchers within each priority, and is freed exactly if that is nothing |
| `Monitor.Monitor.MovePendingToReady` | agent/object_monitor.c:598-668 | All pending notifications turn into exactly what they owe, within each priority behind what was ready and in the order of notifications and watchers; refs equals the outstanding placeholders of every header |
| `Monitor.Monitor.PickFirst` | agent/object_monitor.c:326-338 | The pick is a highest-priority ready callback, the earliest among equals |
| `Monitor.Monitor.Callback` | agent/object_monitor.c:335-338 | One delivery of this header is made and recorded; what it notifies about becomes pending, and the debts grow by just that |
| `Monitor.Monitor.Drop` | agent/object_monitor.c:340-347 | The header is released exactly if that was its last outstanding delivery |
| `Monitor.Monitor.Deliver` | agent/object_monitor.c:324-354 | A callback with any new notifications, the release, and the move of what is pending: the ready list gains exactly what the new notifications owe |
| `Monitor.Monitor.Round` | agent/object_monitor.c:324-354 | Each round keeps the books: deliveries made and still ready are together exactly what is owed; and it makes progress |
| `Monitor.Monitor.ProcessCallbacks` | agent/object_monitor.c:302-360 | Terminates; the deliveries made are exactly those owed by the notifications before and during the run, each once, each a best choice, and every header is released after its last delivery |
| `Traps.FindVarbind` | snmplib/snmp_client.c:785-794 | Finds the first varbind of the name, or none |
| `Traps.FindConcat` | snmplib/snmp_client.c:785-794 | Appended varbinds are found exactly if the name does not occur before them |
| `Traps.BuildTrapOid` | agent/agent_trap.c:629-651 | Fails exactly if the trap OID does not fit; otherwise the buffer holds it, standard or enterprise with 0 and the specific type |
| `Traps.ConvertV1ToV2` | agent/agent_trap.c:653-756 | None exactly if the enterprise leaves no room for the specific type; else sysUpTime, the trap OID (enterprise, 0 and specific type, or the standard trap), the original varbinds, then address, community and enterprise exactly where no varbind of that name was there and there is something to say (section 3.1 of RFC 3584) |
| `Traps.ConvertV2ToV1` | agent/agent_trap.c:492-624 | None exactly if the first two varbinds are not sysUpTime and snmpTrapOID, a Counter64 follows, or a non-standard trap OID is too short; else time, generic and specific type, enterprise and address as the varbinds say: the OID of a non-standard trap is the enterprise, 0 and the specific type if its last but one sub-identifier is 0, and the enterprise and the specific type if it is not (section 3.2 of RFC 3584) |
| `Traps.SplitTrapOid` | agent/agent_trap.c:557-606 | The same for the trap OID alone: a standard one has its number in the OID and its enterprise in the first snmpTrapEnterprise varbind; any other is the enterprise, a 0 exactly if its last but one sub-identifier is 0, and the specific type |
| `Traps.SplitSeparated` | agent/agent_trap.c:557-606 | The specified header puts the trap OID together again, with or without the 0 |
| `Traps.ReducedV2` | agent/agent_trap.c:492-624 | The specified version 1 trap is absent exactly when the version 2 trap cannot be one, and else says what its varbinds say |
| `Traps.ExtendedV1` | agent/agent_trap.c:653-756 | The specified version 2 trap has the leading varbinds, the original ones, and the missing ones appended once each |
| `Traps.AgentAddress` | agent/agent_trap.c:607-612 | The agent address varbind wins over the header's |
| `Traps.FindCounter64` | agent/agent_trap.c:540-555 | True exactly if a varbind is a Counter64 |
| `Traps.FindTrailing` | agent/agent_trap.c:712-754 | The appended varbinds say the trap's own enterprise and address unless the original varbinds do |
| `Traps.FindCommunity` | agent/agent_trap.c:732-741 | After conversion the community is that of the original varbind if there is one, else that of the header if it has one, else absent |
| `Traps.TrailingTyped` | agent/agent_trap.c:653-756 | Conversion yields well-formed varbinds and adds no Counter64 |
| `Traps.BuiltOid` | agent/agent_trap.c:629-651 | An enterprise-specific trap OID looks like a standard one exactly if its enterprise does |
| `Traps.RoundTripV1` | agent/agent_trap.c:492-756 | Version 1 to 2 to 1 keeps the varbinds as a prefix, and restores generic type, specific type, enterprise, time and address exactly for restorable traps |
| `Traps.LongEnterprise` | agent/agent_trap.c:629-651 | It fails, for example, for an enterprise of 127 sub-identifiers |
| `Traps.RoundTripV2` | agent/agent_trap.c:492-756 | Version 2 to 1 to 2 to 1 gives the same header as one step, exactly if the enterprise fits and the trap is not the undefined standard one with a mistakable enterprise |
| `Traps.UndefinedTrap` | agent/agent_trap.c:562-606 | It fails for snmpTraps.7 without an enterprise: the second time there is no version 1 trap |
| `Traps.Stripped` | agent/agent_trap.c:585-606 | The enterprise taken from a non-standard trap OID is not mistaken for a standard trap |

## Left out

- Integer widths: sub-identifiers are unbounded, so that the increment of a name's last sub-identifier cannot wrap; the widths of index values (int and long) and of the GETBULK vector are modelled.
- Memory: allocation failure and the release of memory, except the monitor's headers, whose release is modelled. Growth of `treecache` is not modelled; it is a sequence.
- `Registry.Mib.Register`: names with a first sub-identifier of 3 or more are left out, because their load takes the virgin-territory branch (agent/agent_registry.c:813-850), which is out of reach below the roots; `reginfo`, session, timeout, flags, `variables` and contexts too.
- `Registry.Mib.Unregister`: not for the roots {0}, {1} and {2}, so the branch that drops a whole slice (agent/agent_registry.c:1640-1650) is never taken.
- `Registry.Replay`: once a registration is not anchored, further changes below {0}, other than the attempt to take it back, are left out: they would start from a node that is no head and tear the first stack apart. The same goes for `Registry.Mib.Register` and `Registry.Mib.Unregister`.
- Changing the cache size at run time; the size that a failed unregistration leaves behind is modelled.
- Range registration and range unregistration, `netsnmp_subtree_join`, unregistration by session.
- `Scheduler.Agent.HandleRequest`: which kind of processing a request gets is a choice of the environment (done at once or delegated), and session-close cancellation is left out.
- `SetMachine.Session.Run`: every delegated request is answered in the end; the access and ASN_NULL checks before RESERVE1, the mapping of statuses for version 1, and one-pass AgentX phases are left out; handlers do not clear an error status they have set on a request. What a handler does depends on the phase and the request, which covers every single run.
- `GetNext.Session.HandleRequest`: inclusive AgentX ranges and the too-big cut-off (agent/snmp_agent.c:3453-3485) are left out. No decoder delivers an empty name (snmplib/asn1.c:1444-1541, agent/mibgroup/agentx/protocol.c:1167-1178), and nothing is said of one. Whether a search ends is not said exactly for handlers without a habit, which may answer the same question in another way each time, or with something past the slice.
- `GetNext.Session.HandleVarRequests`: handlers return no error status and mark no request with one.
- `GetNext.Session.GetNextLoop`: so the end of the search by such a status (agent/snmp_agent.c:3488-3491) is left out.
- `GetNext.Session.ReassignRequests`: requests are visited in varbind order, not chain by chain; each is judged by itself, so the order makes no difference.
- The search of repetitions in GETBULK (`bulk_to_next_fix_requests`), and repetitions in the access check. The entries of the bulk cache are arbitrary in `GetBulk`.
- `GetBulk.Clamp`: the maximum message size is not negative.
- `GetBulk.TruncationLoses`: for columns in which endOfMibView, once given, goes on to the end, which `GetBulk.LastingWhen` traces back to the search; the `Kept` rows are the same without it.
- `IndexRegistry.Registry.RegisterIndex`: integer indexes only (strings compare over the shorter length, and rollover leaves the list unsorted). A given value is comparable, here and in `IndexRegistry.Registry.RegisterThis`; what the call does to the lists after a search that went wrong (`IndexRegistry.TakenForNew`) is left out. The width of long is not modelled.
- `IndexRegistry.Registry.UnregisterIndex`: the value is comparable, too.
- `Monitor.Monitor.ProcessCallbacks`: callbacks do not change registrations, and what they notify in one run is finite; unregistering a watcher and `o_steal` are left out. The lists are sequences: the splicing of pointers is not modelled there.
- `Traps.ConvertV2ToV1`: varbinds have the types their MIB objects have, and a trap OID does not end on the way to, or with, the prefix of the standard traps, since the code compares nine sub-identifiers whatever the length (agent/agent_trap.c:561-570) and would read past the value; PDU fields that play no role for traps are left out.
- `Traps.BuildTrapOid`: the generic trap type is at least -1; below, the sub-identifier wraps around.
- `Scheduler.Agent.Run`: transaction ids are distinct; with an id that is already delegated, a resumed request would be left off the list (agent/snmp_agent.c:3219-3229).
- Handler chains, handler caches, the address cache, `agent_sysORTable`, the AgentX subagent, transports, configuration, logging, statistics and access control itself (views are abstract predicates).
