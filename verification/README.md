# Models and proofs for the platform's caches, dispatchers and tables

The platform keeps derived state in several places: Redis caches that index rules by device,
tables that mirror other tables, task rows handed out under a leased lock, a schema version
beside the scripts it stands for. This project models the code that keeps that state and
proves what the rest of the platform relies on.

A file per concern, each module with the state the Go code changes in place as a class (Redis
and SQL tables are map or sequence fields), a description of every call on values, and the
theorems about all calls and all runs:

- `IndexList`, `AlarmIndex`, `AlarmCache`, `AlarmKeys`: the alarm cache, with the slice-shifting
  deletion loop over a real array, and the text of its keys.
- `AutomateStore`, `AutomateTheorems`, `AutomateEffects`, `AutomateRuns`, `AutomateSteps`,
  `AutomateObject`, `AutomateCache`, `AutomateKeys`: the three-level automation cache under its
  two prefixes.
- `TaskLease`, `OneTimeTasks`, `PeriodicTasks`, `NextTime`: task dispatch by interleaving
  workers under a lease, and the scheduler they call.
- `Telemetry`, `DiffWindows`, `Aggregates`: ingest into history and current values, difference
  windows, bucketed aggregates.
- `Calendar`: months, leap years and Go's normalisation of dates past the end of a month.
- `Migrations`, `DeviceStatus`, `ProtocolPlugins`, `ServiceManager`, `MenuTree`: the smaller
  state machines.
- `Prelude`, `Integers`: lists without duplicates, quotients and multiples.

Failures are inputs. A class over Redis or SQL carries a script `faults` saying which of the
commands to come return an error, or a call takes the faults as arguments; the contracts say
what holds whatever the script, and what more holds when it is quiet. Clock readings, fresh
ids and the orders in which Go ranges over maps are inputs or arbitrary choices too.

The members named `...Leaves`, `...Outright` and `...Exact` say what the calls leave and answer in
the columns, keys and plain numbers a caller sees, apart from the definitions the calls are
built on; the theorems about runs and agreement stand beside them.

## What the proofs found

- `groupCacheDel` slices out of range exactly on lists that end in the id and hold it earlier
  as well, and leaves a copy behind exactly on lists with two adjacent copies
  (`SweepInPlace`, `SweptExactly`, `SweepGoesWrong`). The lists the cache builds have neither.
- `DeleteBygroupId` does not erase a group after a `SetAlarm` that drops an alarm id, which
  `ActionAfterAlarm` can cause (internal/service/automate_decoration.go:37-44), nor after a
  second `SetDevice` that brings a new device (`DroppedAlarmSurvivesDelete`,
  `NewDeviceSurvivesDelete`). It does exactly when every mention of the group is recorded
  (`DeleteErasesIff`).
- Every alarm key expires after six days on its own clock. A list that another group keeps
  fresh can outlive the record of a group it mentions, and a later delete then misses the
  mention (`OrphanSurvivesDelete`). Setting the group again does not mend this: the new record
  knows nothing of its old alarms, and a delete leaves them although the record is there
  (`ResetSurvivesDelete`). What a call on the group has to satisfy is `Settles`: the record it
  stores accounts for every list that names the group; per call this is `SetDeviceSettlesIff`
  and `SetAlarmSettlesIff`, and a call that does not satisfy it always leaves an unaccounted
  mention (`AccountedIffSettles`). If the calls on one group do, then, whatever is called on
  other groups, fails or expires, a completed delete erases that group exactly when its record
  is still there or nothing mentions it any more (`RunDeleteErasesIff`).
- Two alarm keys can have the same text if alarm ids contain underscores (`Collisions`).
- A filled scene reads back with another scene's conditions exactly when they share a group
  (`FilledSceneIff`); the inputs in initialize/test/automate_cache_test.go:30-157 share one.
- Setting a scene changes what a device reads whose stale list still names the scene, even if
  the device is not one of the scene's triggers any more (`ReadAfterSet`, `SetThenRead`: an
  exact condition). An expiry, a delete and a set are enough: the delete finds no action entry
  and leaves the list alone, the set revives its entry, and the scene comes back without
  conditions on a device it was edited away from (`DeletedSceneComesBack`).
- Writing before the lease ends is not enough for dispatching a one-time task once: a late
  release deletes another worker's key (`LateReleaseRepeats`). Releasing in time is not enough
  either (`LateWriteRepeats`). Both together are (`DispatchedOnce`).
- The same holds for periodic tasks: an overdue worker that returns nothing, but releases late,
  makes two others return one row (`PeriodicTasks.LateReleaseRepeats`; `LateWalkRepeats`). In
  any run a call repeats a row exactly when another worker returned it after the call had read
  its list (`FinishRepeatsIff`), unless a walk had left the row due.
- A walk leaves a row due, to be returned again, exactly when its write, whose error is
  ignored, failed, or stored the row's own time (`StaysDueIff`, `ReopensIff`). The second
  happens to a daily or monthly task that is due at the very instant its schedule names: the
  schedule answers the present instant (`NeverBefore`, `InstantRepeats`, `FailedWriteRepeats`).
- A monthly schedule for a day the month aimed at does not have answers one of the first days
  of the month after, and meets the schedule exactly otherwise (`MonthlyEarliestIff`,
  `ShortMonthMissed`).
- `getDiffData` misses part of the range when it spans more than a hundred windows
  (`HundredWindowsGap`), and misses all of it when it is one instant lying on a boundary
  (`InstantOnTheHourMissed`); otherwise hours, days, weeks and years cover it
  (`RangeCoveredIff`, and for fixed widths in plain arithmetic `FixedCoveredIff`). Months are
  counted with 30 days each, so a range over February can lose its first days
  (`MonthsCoveredIff`, `FebruaryGap`).
- Negative timestamps are bucketed towards zero and so fall outside their own bucket unless
  they are multiples of the window (`InOwnBucketIff`).
- A first boot of a program of version 0 stores a row that makes every later boot fail
  (`VersionZeroLocksOut`). The shipped version number is the constant 28
  (pkg/global/global.go:13), so this concerns only a build that sets it to 0.
- A telemetry batch that is stored while the update of the current values stops half-way
  leaves a series out of agreement exactly when the last row written for it is not its latest,
  or when the batch overtakes a series the update did not reach (`RoundSyncIff`,
  `HalfRoundOutOfSync`). A later complete round heals it (`RoundHealsIff`).
- One failed cache deletion makes the next status update record a change twice
  (`FailedDeleteRepeats`). Which faults break the agreement is exact (`CallAgreesIff`).
- An update that blanks a plugin's name leaves the old name in the language row
  (`UpdateAgreesIff`). The request's validation refuses an empty name
  (internal/model/protocol_plugins.http.go:19), so only another caller could do this. Update
  and delete report success even if the commit failed (`LostDeleteReportsSuccess`,
  `LostUpdateReportsSuccess`): nothing is then changed, and the reply does not tell.
- A failed `StartAll` leaves its counts in the wait group, so `Wait` blocks for good
  (`FailedStartBlocksWait`); services registered while started drive it below zero
  (`LateRegistrationPanics`). `Conservation` and `WaitReturnsIff` say exactly when.
- The menu recursion ends exactly when the roots' parent id "0" is not itself an element of
  the permitted menu (`RankingExists`, `FiniteOnlyIfRooted`, `SelfListedRoot`).

## Model

| member | source | states |
|---|---|---|
| IndexList.Append | initialize/alarm_cache.go:157-179 | append-if-absent: the list gains the id iff it was missing, everything else keeps its place |
| IndexList.ShiftLeft | initialize/alarm_cache.go:194-198 | the in-place append of two slices of one array: one cell dropped, the tail moved left, the last cell left stale |
| IndexList.SweepInPlace | initialize/alarm_cache.go:194-198 | the deletion loop over the shrinking array: it leaves the slice exactly on lists that end in the id and hold it earlier, and otherwise leaves what the skipping scan leaves |
| IndexList.SweptExactly | initialize/alarm_cache.go:194-198 | the loop removes every copy of the id and nothing else iff no two copies are adjacent; otherwise a copy survives |
| IndexList.NoDupDeletable | initialize/alarm_cache.go:157-209 | on a list without duplicates the deletion stays in bounds and is exact |
| IndexList.SweepGoesWrong | initialize/alarm_cache.go:194-198 | `[g, g]` runs out of range and `[g, g, h]` keeps a copy |
| AlarmKeys.Collisions | initialize/alarm_cache.go:66-80 | two keys of the flat Redis key space have the same text iff they are equal or are alarm keys with the same joined ids |
| AlarmKeys.TextInjective | initialize/alarm_cache.go:66-80 | with underscore-free alarm ids every key has its own text |
| AlarmKeys.UnderscoreCollides | initialize/alarm_cache.go:74-76 | two different (alarm, device) pairs with one key text |
| AlarmIndex.StepIds | initialize/alarm_cache.go:100-300 | any call, stopped by an error anywhere, changes only lists under the keys it is about, each as the completed call would, and changes no other group's record |
| AlarmIndex.SetDeviceLeaves | initialize/alarm_cache.go:105-135 | the tables after a completed SetDevice: a known group keeps scene, alarm ids and devices and takes the new contents, an unknown one is stored as the call says, the device and scene lists gain the id at their end, nothing else changes |
| AlarmIndex.SetAlarmLeaves | initialize/alarm_cache.go:213-237 | after a completed SetAlarm: the record keeps all but its alarm ids, the lists of those ids on the device gain the id, nothing else changes |
| AlarmIndex.DeleteLeaves | initialize/alarm_cache.go:263-300 | after a completed delete: the record is gone, the id is cut out of the lists of its devices, its alarm ids on each of them and its scene, emptied lists are gone, nothing else changes |
| AlarmIndex.StoppedBetween | initialize/alarm_cache.go:100-300 | a call that met an error leaves each list and record as it was or as the completed call would, and a failed delete takes no record away |
| AlarmIndex.RunRecord | initialize/alarm_cache.go:82-300 | in every run a live record has the scene and devices of the call that created it, the contents of the last SetDevice since and the alarm ids of the last SetAlarm since |
| AlarmIndex.StepKeepsAccount | initialize/alarm_cache.go:100-300 | a call that completes or stops anywhere keeps a group's record accounting for every mention of it: always if the call is on another group, and if the call settles when it is on this one |
| AlarmIndex.AccountedIffSettles | initialize/alarm_cache.go:100-238 | from any state of the cache, a completed setting call leaves its group accounted for iff it settles |
| AlarmIndex.SetDeviceSettlesIff | initialize/alarm_cache.go:105-135 | SetDevice settles iff it brings a known group no new device and no new scene, or an unknown group is mentioned only where the call lists it |
| AlarmIndex.SetAlarmSettlesIff | initialize/alarm_cache.go:213-237 | SetAlarm settles iff it keeps every alarm id the group is indexed under and names one of the group's devices; on a group without a record only if it does nothing |
| AlarmIndex.StepKeepsCovered | initialize/alarm_cache.go:100-300 | settling calls keep full coverage, in which every mentioned group has a record that accounts for it |
| AlarmIndex.CompleteMirroredIff | initialize/alarm_cache.go:100-300 | a completed call keeps all device and scene lists exact iff it settles and sets no alarm on an unknown group |
| AlarmIndex.RunAccountedFor | initialize/alarm_cache.go:82-300 | in every run in which the calls on one group settle, its record accounts for every mention of it, whatever is called on other groups, fails or expires |
| AlarmIndex.RunCovered | initialize/alarm_cache.go:82-300 | if all calls settle and no expiry takes the record of a mentioned group, lists mention only what the group table records |
| AlarmIndex.ExpiryCoveredIff | initialize/alarm_cache.go:82-98 | an expiry of any keys leaves the index covered iff it takes no record of a mentioned group |
| AlarmIndex.ExpiryMirroredIff | initialize/alarm_cache.go:82-98 | it leaves device and scene lists exact iff besides it takes no list without the records it mirrors |
| AlarmIndex.RunMirroredAt | initialize/alarm_cache.go:82-300 | a device or scene list mentions a group iff its record says so, in every run in which that group's calls settle and complete and the list and the record expire together; anything else may fail or expire |
| AlarmIndex.RunMirrored | initialize/alarm_cache.go:82-300 | if that holds of every group and list, the device and scene lists are exact inverses of the group table |
| AlarmIndex.RunProper | initialize/alarm_cache.go:82-209 | in every run at all, with errors and expiries, a key exists only with a non-empty duplicate-free list |
| AlarmIndex.DeleteExact | initialize/alarm_cache.go:263-300 | a completed delete cuts the id out of exactly the lists its record accounts for, and of no other |
| AlarmIndex.DeleteErasesIff | initialize/alarm_cache.go:263-300 | a completed delete leaves no mention of the group iff every mention was recorded |
| AlarmIndex.RunDeleteErasesIff | initialize/alarm_cache.go:82-300 | in every run in which the calls on the group settle, whatever else is called, fails or expires, a completed delete leaves no mention iff the group's record is still there or nothing mentioned the group |
| AlarmIndex.DeleteErases | initialize/alarm_cache.go:263-300 | in covered states delete is full erasure, and every other group's memberships are untouched |
| AlarmIndex.OrphanSurvivesDelete | initialize/alarm_cache.go:263-300 | a run of set, expiry of the record, and completed delete after which the group is still listed |
| AlarmIndex.ResetSurvivesDelete | initialize/alarm_cache.go:100-300 | a run of set, alarm, expiry of the record alone and the same set again: the record is there, and a completed delete leaves the group under its alarm key |
| AlarmIndex.NewDeviceSurvivesDelete | initialize/alarm_cache.go:105-135 | a second SetDevice with another device leaves a mention that delete does not find |
| AlarmIndex.StepInvisible | initialize/alarm_cache.go:100-300 | with one group's id blanked out, no call on that group is visible in the tables |
| AlarmIndex.DeleteUndoesIff | initialize/alarm_cache.go:100-300 | after any calls on a group that was new, wherever they failed, and no expiry, one completed delete restores the exact state before them iff every mention they left is recorded |
| AlarmIndex.DeleteUndoes | initialize/alarm_cache.go:100-300 | so it does if those calls settle |
| AlarmIndex.RetryCompletes | initialize/alarm_cache.go:100-300 | repeating a call that stopped at an error ends where it would have ended |
| AlarmIndex.SettingCoveredIff | initialize/alarm_cache.go:100-238 | on covered states a setting call keeps coverage iff it settles |
| AlarmIndex.SetDeviceCoveredIff | initialize/alarm_cache.go:105-135 | a second SetDevice keeps coverage iff it brings no new device and the same scene, since only `Contents` is refreshed |
| AlarmIndex.SetAlarmCoveredIff | initialize/alarm_cache.go:213-237 | SetAlarm keeps coverage iff the new list keeps every alarm id the group is still indexed under and the device is one of the group's |
| AlarmIndex.DroppedAlarmSurvivesDelete | initialize/alarm_cache.go:222-222 | the overwrite of the alarm list leaves a mention that delete no longer finds |
| AlarmCache.AlarmCache.constructor | initialize/alarm_cache.go:32-43 | a cache over empty tables |
| AlarmCache.AlarmCache.GroupCacheAdd | initialize/alarm_cache.go:157-179 | the list under the key gains the id once, or nothing changes on an error |
| AlarmCache.AlarmCache.SweepList | initialize/alarm_cache.go:188-209 | deletion on any stored list: panics exactly on overrunning lists, stores the rest, removes an emptied key |
| AlarmCache.AlarmCache.GroupCacheDel | initialize/alarm_cache.go:188-209 | on the lists the cache builds it never leaves the slice, drops exactly the id, and removes an emptied key |
| AlarmCache.AlarmCache.AddDeviceKeys | initialize/alarm_cache.go:124-130 | the loop of SetDevice visits the devices in order, up to the first error |
| AlarmCache.AlarmCache.AddAlarmKeys | initialize/alarm_cache.go:227-233 | the loop of SetAlarm visits the alarm ids in order, up to the first error |
| AlarmCache.AlarmCache.SetDevice | initialize/alarm_cache.go:100-135 | performs the SetDevice step of the value model for any fault script, stopping at the first error with exactly the first visits done; completes if no command fails |
| AlarmCache.AlarmCache.SetAlarm | initialize/alarm_cache.go:213-237 | performs the SetAlarm step for any fault script, stopping at the first error with exactly the first visits done; completes if no command fails |
| AlarmCache.AlarmCache.GetByGroupId | initialize/alarm_cache.go:239-249 | the stored record, or the empty one for an unknown group |
| AlarmCache.AlarmCache.GetBySceneAutomationId | initialize/alarm_cache.go:251-261 | the ids listed for the scene, or none |
| AlarmCache.AlarmCache.DropAlarmKeys | initialize/alarm_cache.go:270-278 | the pair loop visits exactly the record's alarm-device pairs in order, up to the first error |
| AlarmCache.AlarmCache.DropDeviceKeys | initialize/alarm_cache.go:279-290 | the device loop visits exactly the record's devices in order, up to the first error |
| AlarmCache.AlarmCache.DropIndexKeys | initialize/alarm_cache.go:270-295 | pairs, devices, scene, in this order, up to the first error |
| AlarmCache.AlarmCache.DeleteBygroupId | initialize/alarm_cache.go:263-300 | performs the Delete step for any fault script, so the erasure theorems apply to it |
| AutomateKeys.TextInjective | initialize/automate_cache.go:60-76 | no two entries of any prefix or kind share a Redis key, whatever the ids |
| AutomateStore.ReadIsLive | initialize/automate_cache.go:358-390 | every scene a read returns has a live action entry and comes with that entry's actions |
| AutomateTheorems.FlatPermutes | initialize/automate_cache.go:359-370 | reading a list of distinct groups gives the conditions of those groups, each exactly once |
| AutomateTheorems.FlatKeepsOrder | initialize/automate_cache.go:359-370 | each group's conditions come back in input order, in any order of the groups |
| AutomateTheorems.FilledSceneIff | initialize/automate_cache.go:409-471 | a filled scene reads back with exactly its own conditions iff none of its groups is shared with another scene |
| AutomateTheorems.OwnedIff | initialize/automate_cache.go:409-421 | the conditions of a scene's groups are the scene's conditions iff no group is shared |
| AutomateTheorems.FillRoundTrip | initialize/automate_cache.go:339-471 | fill, then read: exactly the scenes with an action and a condition, each once, actions in input order, every group whole and in input order, for every map order |
| AutomateTheorems.SharedGroupMixes | initialize/automate_cache.go:415-421 | two scenes that share one group id read each other's conditions |
| AutomateTheorems.ReadDropped | initialize/automate_cache.go:140-190 | dropping a scene's action entry and groups removes just that scene from a list's reading iff no other live scene of the list loses conditions |
| AutomateTheorems.DeleteThenRead | initialize/automate_cache.go:140-227 | after a successful delete a read never returns the scene and is a miss or the old answer without it, whether the list held it never, once or often, was empty, or was the no-task mark; exact for entries that stayed |
| AutomateTheorems.DeleteStoppedThenRead | initialize/automate_cache.go:192-227 | a delete that fails changes a read at most by dropping the scene |
| AutomateTheorems.ReadAfterSet | initialize/automate_cache.go:250-315 | earlier entries of a list read as before iff the list does not name the scene with other actions |
| AutomateTheorems.SetConditions | initialize/automate_cache.go:262-294 | the set scene reads back with all conditions of exactly the groups that hold a condition of the prefix's trigger type, in input order per group |
| AutomateTheorems.SetThenRead | initialize/automate_cache.go:250-315 | after setting with fresh groups a triggering device reads its old scenes in order and then this one, any other device reads as before, exactly when the device's list is settled about the scene |
| AutomateEffects.ActionsExact | initialize/automate_cache.go:434-438 | a scene's actions are exactly the input's actions for it, in input order |
| AutomateEffects.GroupExact | initialize/automate_cache.go:257-263 | a group's conditions are exactly the input's conditions of it, in input order |
| AutomateEffects.AnswerExact | initialize/automate_cache.go:339-391 | a device without an entry is not found, a marked one has no task, any other answers exactly the live scenes of its list, in list order, each with its groups' conditions and its actions |
| AutomateEffects.SetLeaves | initialize/automate_cache.go:250-315 | the tables after a set, per prefix and by trigger: exactly the devices (configurations) that some condition is triggered by have the scene appended, exactly the groups with such a condition are stored, each whole, and with no such condition nothing changes |
| AutomateEffects.SetAnswers | initialize/automate_cache.go:250-391 | set, then read: a triggering device (configuration) answers its earlier scenes and then this one, with the actions given and, each as often as given, exactly the conditions of the groups with a condition of that kind of trigger |
| AutomateEffects.DeleteLeaves | initialize/automate_cache.go:140-226 | the tables after a delete: without an action entry nothing changes; else the scene's entry and groups go, triggered lists holding only the scene are stored empty, other triggered lists are dropped, all other entries stay |
| AutomateEffects.FillLeaves | initialize/automate_cache.go:409-471 | the tables after a fill: the device's list, the groups of its conditions and the scenes with an action and a condition are written, every other list, group and action entry stays |
| AutomateEffects.FilledList | initialize/automate_cache.go:441-460 | the list a fill writes names each scene with an action and a condition once, with each of its groups once |
| AutomateRuns.NextActions | initialize/automate_cache.go:120-486 | any call, failed or not, and any expiry leaves a scene's action entry as it was or as the call writes it; a set or fill that fails has written its entries in order, groups first, lists last |
| AutomateRuns.RunLastWritten | initialize/automate_cache.go:120-486 | in every run of sets, fills, deletes, marks, failures and expiries a live action entry holds the last actions written |
| AutomateRuns.ReadsAreCurrent | initialize/automate_cache.go:339-391 | in every run each scene a read returns comes with the last actions written for it |
| AutomateRuns.DeletedStaysUnread | initialize/automate_cache.go:140-190 | per prefix: after a successful delete no read returns the scene until some call writes it again |
| AutomateRuns.DeletedSceneComesBack | initialize/automate_cache.go:140-315 | a run of set, expiry, successful delete and set elsewhere after which the first device reads the scene again, without conditions |
| AutomateObject.SeenRun | initialize/automate_cache.go:120-486 | every run of the public calls is a run of each prefix, with calls on the other prefix as no-ops |
| AutomateObject.DeletedStaysUnread | initialize/automate_cache.go:120-486 | after a successful public delete no answer for any device or configuration returns the scene, whatever fails, expires or cannot be read, until some call writes it again |
| AutomateCache.AutomateCache.constructor | initialize/automate_cache.go:38-58 | an object over empty prefixes, set to single devices |
| AutomateCache.AutomateCache.ReadGroups | initialize/automate_cache.go:358-371 | the conditions of exactly the groups that could be read, in list order; at most one is missed for each failed command |
| AutomateCache.AutomateCache.ReadScene | initialize/automate_cache.go:355-388 | one listed scene, with its actions; nothing if its action entry is missing or unreadable |
| AutomateCache.AutomateCache.GetCacheByDId | initialize/automate_cache.go:339-391 | without errors exactly the value model's reading; with unreadable keys only listed live scenes, each with its stored actions and the whole conditions of some of its groups, and in full every scene but at most one for each failed command |
| AutomateCache.AutomateCache.GetCacheByDeviceId | initialize/automate_cache.go:321-337 | reads the configuration's entry under `multiple` if there is one, else the device's under `one`; its answers are those the object-level theorem is about |
| AutomateCache.AutomateCache.DropScene | initialize/automate_cache.go:203-209 | the copy-and-truncate drops the first entry for the scene and keeps the order of the rest |
| AutomateCache.AutomateCache.CollectDevices | initialize/automate_cache.go:161-176 | collects only devices that trigger the scene's cached groups, and all of them but for at most one unread group for each failed command |
| AutomateCache.AutomateCache.SourcesIn | initialize/automate_cache.go:171-175 | exactly the triggering devices of a group's conditions |
| AutomateCache.AutomateCache.ClearDevice | initialize/automate_cache.go:194-220 | one device: an emptied list is stored back, a list with other scenes is put up for deletion, an unreadable or no-task entry stays |
| AutomateCache.AutomateCache.AutomateDeviceCacheDeleteHandel | initialize/automate_cache.go:192-226 | lists left empty are stored back empty, lists that keep other scenes are put up for deletion, no-task entries stay, and of the others at most one for each failed command; the other prefix is untouched |
| AutomateCache.AutomateCache.DeleteCacheBySceneAutId | initialize/automate_cache.go:140-190 | any outcome is one the run theorems allow for a delete; on success every triggered list is treated but for at most one group or list missed for each failed command, so without errors it is the full delete |
| AutomateCache.AutomateCache.DeleteCacheBySceneAutomationId | initialize/automate_cache.go:120-138 | success means deleted under both prefixes, configurations first; a failure there leaves the single devices as they were, a later failure leaves the first half done |
| AutomateCache.AutomateCache.Group | initialize/automate_cache.go:257-269 | the grouping loop: each group id with its conditions in input order, and the triggering devices |
| AutomateCache.AutomateCache.AnyTriggers | initialize/automate_cache.go:277-286 | whether a group holds a condition of the prefix's trigger type |
| AutomateCache.AutomateCache.StoreGroups | initialize/automate_cache.go:275-294 | stores exactly the relevant groups, each once, in some order; on an error some of them |
| AutomateCache.AutomateCache.AppendScene | initialize/automate_cache.go:301-313 | one device's list gains the scene at its end, a missing or no-task entry becomes a list of it, an unreadable one stays |
| AutomateCache.AutomateCache.StoreDevices | initialize/automate_cache.go:301-313 | appends the scene to the list of each triggering device and to no other; at most one is passed over for each failed command |
| AutomateCache.AutomateCache.SetCacheBySceneAutId | initialize/automate_cache.go:250-320 | any outcome is one the run theorems allow for a set; on success every triggering device has the scene but for at most one for each failed command, so without errors it is the full set |
| AutomateCache.AutomateCache.SetCacheBySceneAutomationId | initialize/automate_cache.go:228-247 | success means set under both prefixes, configurations first; a failure there leaves the single devices as they were, a later failure leaves the first half done |
| AutomateCache.AutomateCache.SceneGroups | initialize/automate_cache.go:415-421 | each scene of the input with the set of its groups |
| AutomateCache.AutomateCache.SceneActions | initialize/automate_cache.go:434-438 | each scene of the input with its actions in input order |
| AutomateCache.AutomateCache.FillGroups | initialize/automate_cache.go:424-431 | writes every group entry in any order and no other key |
| AutomateCache.AutomateCache.FillScenes | initialize/automate_cache.go:441-460 | one list entry and one action entry for each scene with both an action and a condition, with all its groups |
| AutomateCache.AutomateCache.SetCache | initialize/automate_cache.go:409-471 | success is a full fill of the value model; a failure has written some groups only, or all groups and some scenes, and never the device's list |
| AutomateCache.AutomateCache.SetCacheByDeviceId | initialize/automate_cache.go:393-401 | fills the configuration's list under `multiple` if one is given, else the device's under `one`, the other prefix untouched; one request of the object-level runs |
| AutomateCache.AutomateCache.SetCacheByDeviceIdWithNoTask | initialize/automate_cache.go:476-486 | marks that one entry instead, the rest of both prefixes untouched; one request of the object-level runs |
| TaskLease.TakeKeeps | pkg/common/lock.go:12-20 | set-if-absent gives the taker alone a valid lease |
| TaskLease.HeldFiveSeconds | internal/dal/one_time_tasks.go:43-43 | a lease keeps others out, and its worker in time, for five seconds and no longer |
| TaskLease.ReleaseKeepsIff | pkg/common/lock.go:22-28 | the unconditional delete keeps exclusion iff no other worker is in time, so whenever the releaser is |
| OneTimeTasks.StepSound | internal/dal/one_time_tasks.go:11-70 | every step of every worker, timely or not, keeps a handed-out task out of the not-executed state |
| OneTimeTasks.NeverBack | internal/dal/one_time_tasks.go:19-70 | no step takes a task back to not executed |
| OneTimeTasks.StepLeaves | internal/dal/one_time_tasks.go:11-70 | which task each step writes, and what: EXE to the tasks handed out, EXP to those saved as expired, the flag to the one switched; every other task stays exactly as it is |
| OneTimeTasks.StillToDoIff | internal/dal/one_time_tasks.go:11-70 | in any run a stored task is still NEX iff it was neither handed out nor saved as expired |
| OneTimeTasks.QueryReturns | internal/dal/one_time_tasks.go:48-48 | a query returns due, enabled, unexecuted tasks, earliest first, at most the limit, and none is left out for a later one |
| OneTimeTasks.WriteRepeatsIff | internal/dal/one_time_tasks.go:41-64 | in any run, a write hands a task out again iff another worker handed it out after this one read its list |
| OneTimeTasks.StepSafe | internal/dal/one_time_tasks.go:41-64 | every step of a worker inside its lease, and every other step, keeps exclusion and single dispatch |
| OneTimeTasks.DispatchedOnce | internal/dal/one_time_tasks.go:41-64 | over every interleaving of any number of workers that write and release before their lease ends, no task is handed out twice |
| OneTimeTasks.CallExtendsRun | internal/dal/one_time_tasks.go:41-64 | a whole call extends any run by four enabled steps, timely ones, so the run theorems reach it |
| OneTimeTasks.LateWriteRepeats | internal/dal/one_time_tasks.go:43-60 | a run with timely releases and one late write that hands a task out twice |
| OneTimeTasks.LateReleaseRepeats | internal/dal/one_time_tasks.go:43-46 | a run with timely writes and one late release that hands a task out twice |
| OneTimeTasks.Store.constructor | internal/dal/one_time_tasks.go:41-46 | no tasks, a free lease |
| OneTimeTasks.Store.GetOnceTaskListWithLock | internal/dal/one_time_tasks.go:41-64 | the call is acquire, read, write, release of the step machine on every path; the tasks returned were due, enabled and unexecuted and become EXE, every other task stays exactly as it was; without the lock it changes nothing, in particular does not release |
| PeriodicTasks.StepSound | internal/dal/periodic_tasks.go:41-68 | every step of every worker, timely or not, except a walk that leaves a kept row due, keeps all kept rows behind their stored times |
| PeriodicTasks.StepLeaves | internal/dal/periodic_tasks.go:11-65 | which task each step writes, and what; every other task stays exactly as it is |
| PeriodicTasks.ReopenedIsDue | internal/dal/periodic_tasks.go:56-65 | such a walk leaves a kept row due again |
| PeriodicTasks.FinishRepeatsIff | internal/dal/periodic_tasks.go:41-68 | in any run without such walks, timely or not, a call returns a row again iff another worker returned one of its rows after it had read them |
| PeriodicTasks.ReturnedOnce | internal/dal/periodic_tasks.go:41-68 | over every interleaving of workers that leave in time, and without such walks, no row is returned twice for one stored execution time |
| PeriodicTasks.ReturnedOnceLater | internal/dal/periodic_tasks.go:41-68 | successful writes of times later than now, or of the zero time, are enough beside leaving in time |
| PeriodicTasks.ReturnedOnceMoving | internal/dal/periodic_tasks.go:41-68 | with walks in time too, it is enough that each successful write moves the task off the time its row was read with, even to the present instant |
| PeriodicTasks.ReopensIff | internal/dal/periodic_tasks.go:56-65 | a walk of a row whose time is still stored leaves it due iff the write failed or stored the row's own time |
| PeriodicTasks.InstantRepeats | internal/dal/periodic_tasks.go:56-65 | a run of two timely calls with successful writes that return a row twice: it is due exactly when its daily schedule says |
| PeriodicTasks.FailedWriteRepeats | internal/dal/periodic_tasks.go:64-64 | a run of two timely calls that return a row twice because the first write failed |
| PeriodicTasks.LateReleaseRepeats | internal/dal/periodic_tasks.go:43-46 | a run whose walks and returning calls are in time and whose writes store later times, in which a late release alone makes a row come back twice |
| PeriodicTasks.LateWalkRepeats | internal/dal/periodic_tasks.go:56-65 | a run in which an overdue worker walks and returns a row that a second one has returned |
| PeriodicTasks.StaysDueIff | internal/dal/periodic_tasks.go:56-65 | a due row kept for the caller is due afterwards iff its write, whose error is ignored, failed or stored the row's own time |
| PeriodicTasks.RunThenPlay | internal/dal/periodic_tasks.go:41-68 | the steps of a call extend any run that ends where the call begins, so the run theorems reach it |
| PeriodicTasks.KeptExact | internal/dal/periodic_tasks.go:54-63 | exactly the rows with a real execution time are kept, in the order they were found |
| PeriodicTasks.Store.WalkRows | internal/dal/periodic_tasks.go:55-65 | the loop: each row is scheduled by the row's own schedule at the current time, kept if it has a time, and its task, and no other, gets that time if the write goes through, up to the first row that cannot be scheduled |
| PeriodicTasks.Store.constructor | internal/dal/periodic_tasks.go:41-46 | no tasks, a free lease |
| PeriodicTasks.Store.GetPeriodicTaskListWithLock | internal/dal/periodic_tasks.go:41-68 | the whole call on every path is a sequence of enabled steps: rows kept and rescheduled with the scheduler's answers, the early return with the full query result on a scheduling error, the release after every successful acquire; the rows returned are exactly those found with a time, in order, each of an enabled task that was due |
| NextTime.NextHourly | pkg/common/time.go:71-82 | the earliest matching minute strictly after now |
| NextTime.NextDaily | pkg/common/time.go:84-93 | the earliest matching instant not before now; it is now itself exactly at a matching instant |
| NextTime.NextWeekly | pkg/common/time.go:139-209 | the earliest matching weekday and time strictly after now, and the zero time exactly if no weekday is given |
| NextTime.NextMonthly | pkg/common/time.go:213-233 | the schedule's day of the month aimed at, as Go normalises it |
| NextTime.MonthlyEarliestIff | pkg/common/time.go:213-233 | the monthly answer matches the schedule iff the month aimed at has the day, and then it is the earliest match not before now |
| NextTime.ShortMonthMissed | pkg/common/time.go:213-233 | on the last of January the schedule for every 31st answers the third of March |
| NextTime.NeverBefore | pkg/common/time.go:64-138 | no answer lies in the past, and it is the present instant only for a daily or monthly schedule that names it |
| NextTime.AimIs | pkg/common/time.go:213-226 | a monthly schedule aims at the present month until its instant is over, then at the next |
| NextTime.AnswersOutright | pkg/common/time.go:64-233 | each kind's answer in plain nanoseconds and weekdays: how far ahead it lies at most, at which time of which day, and that no such instant is passed over; errors and the zero time exactly when they are due |
| NextTime.GetSceneExecuteTime | pkg/common/time.go:64-137 | which instant each kind of schedule names, and which texts are errors |
| Calendar.DateExact | pkg/common/time.go:221-226 | a date names its own day iff the month is long enough, and else a day of the next month |
| Calendar.MonthUnique | pkg/common/time.go:213-226 | every day lies in exactly one month |
| Calendar.MonthLength | pkg/common/time.go:221-226 | the twelve month lengths of any year, February by the leap rule |
| Calendar.YearStarts | pkg/common/time.go:221-226 | every year starts on the day the closed Gregorian formula gives |
| Telemetry.NanosExact | internal/dal/telemetry_datas.go:253-254 | the conversion to nanoseconds in a 64-bit integer is exact and injective in the representable range |
| Telemetry.NanosWrap | internal/dal/telemetry_datas.go:253-254 | a million nanoseconds to the millisecond, modulo 2^64, exact iff in the range of an int64 |
| Telemetry.UpsertValues | internal/dal/telemetry_datas.go:221-227 | each point of a batch without repeats ends with its row's values, and a new one with its tenant |
| Telemetry.UpsertPoints | internal/dal/telemetry_datas.go:221-227 | the conflict statement adds exactly the batch's points, leaves others alone, and never changes a stored tenant |
| Telemetry.BatchLeaves | internal/dal/telemetry_datas.go:197-229 | the history after a batch, by device, key and time: the batch's rows with their values, tenants kept where the point was there, every other point as it was |
| Telemetry.DistinctIff | internal/dal/telemetry_datas.go:221-227 | a batch repeats a point iff two rows agree in device, key and time |
| Telemetry.InsertIsUpsert | internal/dal/telemetry_datas.go:197-229 | where the plain insert goes through it stores what the conflict statement would have stored |
| Telemetry.BuildStatement | internal/dal/telemetry_datas.go:208-219 | the placeholder loop binds every row of the batch to its own seven values |
| Telemetry.TouchAllRows | internal/dal/telemetry_datas.go:243-270 | after the update loop each touched series has one row with its last values, others are as before, none is doubled |
| Telemetry.CurrentLeaves | internal/dal/telemetry_datas.go:243-270 | the current table after the loop, by device and key: one row for each that was there or is named, the named ones with time and values of their last row and the tenant first recorded, every other row as it was |
| Telemetry.UpdateRows | internal/dal/telemetry_datas.go:255-262 | the update and its affected-row count, which is positive iff the series has a row |
| Telemetry.BatchInSyncIff | internal/dal/telemetry_datas.go:28-47 | after a batch the current table holds exactly the ROW_NUMBER selection iff each series' last batch row is its latest |
| Telemetry.ForwardInSync | internal/dal/telemetry_datas.go:28-47 | batches that go strictly forward per series meet that condition |
| Telemetry.RunInSync | internal/dal/telemetry_datas.go:28-47 | over every run of forward batches the current table is the ROW_NUMBER selection from history, one row per device and key |
| Telemetry.SeriesTouchedIff | internal/dal/telemetry_datas.go:197-270 | a series a batch names agrees afterwards, whatever the tables were before, iff the batch ends with its latest row |
| Telemetry.SeriesKeptIff | internal/dal/telemetry_datas.go:197-270 | a series a batch does not name agrees afterwards iff it did before |
| Telemetry.ReachedIff | internal/dal/telemetry_datas.go:243-270 | whatever the tables were, an update that reached a series leaves it in agreement iff the last row it wrote is the latest known, with its values |
| Telemetry.NotReachedIff | internal/dal/telemetry_datas.go:197-270 | a stored batch whose update did not reach an agreeing series leaves it so iff every row for it is older than its latest or repeats it; a new series never |
| Telemetry.RoundSyncIff | internal/dal/telemetry_datas.go:197-270 | both, after any rounds, for one more round stored or not and stopped anywhere |
| Telemetry.RoundHealsIff | internal/dal/telemetry_datas.go:197-270 | after any rounds with failed inserts and half-done updates, one complete round heals a series it names iff it ends with the latest row, and leaves the others as they were |
| Telemetry.HalfRoundOutOfSync | internal/dal/telemetry_datas.go:243-270 | a stored batch whose update stops before its first row loses the agreement |
| Telemetry.BatchTenanted | internal/dal/telemetry_datas.go:197-270 | if each device has one tenant, both tables carry it in every row |
| Telemetry.Store.CreateTelemetrDataBatch | internal/dal/telemetry_datas.go:197-229 | all or nothing; success is the one map update, by either statement; a batch that repeats a point is refused |
| Telemetry.Store.UpdateTelemetrDataBatch | internal/dal/telemetry_datas.go:243-270 | the current table after all rows, or after those before the first failing row |
| DiffWindows.AlignIsNext | internal/dal/telemetry_datas.go:760-769 | hours, days and weeks: the aligned end is the next whole hour or midnight of the zone |
| DiffWindows.AlignIsNextMonth | internal/dal/telemetry_datas.go:770-772 | months: it is the start of the zone's next month |
| DiffWindows.AlignIsNextYear | internal/dal/telemetry_datas.go:773-775 | years: it is the start of the zone's next January |
| DiffWindows.EdgesFall | internal/dal/telemetry_datas.go:806-825 | boundaries fall strictly, by at least the estimated width except for months |
| DiffWindows.OverlapAtEdges | internal/dal/telemetry_datas.go:806-844 | clipped windows overlap at most in an edge, shared only by neighbours, for all five units |
| DiffWindows.CoversIff | internal/dal/telemetry_datas.go:806-844 | the first n clipped windows cover every instant of the range iff they reach back to its start and the range is not a single instant on a boundary |
| DiffWindows.RangeCoveredIff | internal/dal/telemetry_datas.go:750-844 | hours, days, weeks and years as the function lays them out: covered iff the range is within a hundred windows and not one instant on a boundary |
| DiffWindows.FixedCoveredIff | internal/dal/telemetry_datas.go:750-844 | hours, days and weeks in plain arithmetic: covered iff the start is at most a hundred widths before the aligned end, and the range is not one instant a whole number of widths before it |
| DiffWindows.HundredWindowsGap | internal/dal/telemetry_datas.go:801-803 | a range of a hundred hours whose start no window takes in |
| DiffWindows.InstantOnTheHourMissed | internal/dal/telemetry_datas.go:831-833 | a single instant on the hour that no window takes in |
| DiffWindows.MonthsCoveredIff | internal/dal/telemetry_datas.go:750-844 | months: covered iff the months counted with 30 days each reach back to the start, and it is not one instant on a boundary |
| DiffWindows.FebruaryGap | internal/dal/telemetry_datas.go:784-803 | a range over February whose first day no window takes in |
| Calendar.YearLength | internal/dal/telemetry_datas.go:822-824 | any twelve months make at least 365 days, so years are never undercounted |
| DiffWindows.DiffIsUnique | internal/dal/telemetry_datas.go:897-939 | latest minus oldest is one value per window |
| DiffWindows.GetDiffValueInTimeWindow | internal/dal/telemetry_datas.go:897-963 | latest minus oldest of the window when both are numbers, and no value otherwise |
| DiffWindows.DifferenceIff | internal/dal/telemetry_datas.go:897-963 | a window's value is the reading of its latest sample less that of its oldest, each the number recorded or else a text that parses |
| DiffWindows.SortByTimestamp | internal/dal/telemetry_datas.go:887-892 | an ascending arrangement of the same rows |
| DiffWindows.SortedStrictly | internal/dal/telemetry_datas.go:887-892 | the final sort leaves strictly ascending window starts |
| DiffWindows.DiffRows | internal/dal/telemetry_datas.go:806-892 | the window loop and the sort: exactly the rows of the counted windows that meet the range, can be queried and have a value |
| DiffWindows.GetDiffData | internal/dal/telemetry_datas.go:750-894 | by the time text, in plain milliseconds: the rows are exactly those of at most a hundred windows of 3600000, 86400000 or 604800000 before the aligned end, or of whole months or years of the zone, that meet the range, can be queried and have a value, strictly ascending; any other text is an error |
| Aggregates.PointsExact | internal/dal/telemetry_datas_aggregate.go:53-55 | exactly the samples of the range, both ends included, that carry a number are aggregated |
| Aggregates.KeysExact | internal/dal/telemetry_datas_aggregate.go:49-57 | grouping yields exactly the buckets of some sample, each once, ascending, none empty |
| Aggregates.InOwnBucketIff | internal/dal/telemetry_datas_aggregate.go:49-49 | a timestamp lies in its bucket iff it is non-negative or a multiple of the window |
| Aggregates.AnsweredIff | internal/dal/telemetry_datas_aggregate.go:20-44 | exactly five function names are answered |
| Aggregates.AnswerPartitions | internal/dal/telemetry_datas_aggregate.go:20-101 | for a range of non-negative times the rows are disjoint ascending intervals and every number of the range lies in one |
| Aggregates.AnswerCovers | internal/dal/telemetry_datas_aggregate.go:20-101 | for any range, before 0 too, rows ascend and the part of one of them takes in each number of the range |
| Aggregates.NumbersExact | internal/dal/telemetry_datas_aggregate.go:53-55 | the numbers of a part of the range: one for each of its samples that carries one, in order |
| Aggregates.AnswerRow | internal/dal/telemetry_datas_aggregate.go:45-101 | each row by the numbers of its part of the range: a sum or average within half a unit of the fourth decimal (the average times the count: per number), an extreme likewise, a difference exactly largest less smallest |
| Aggregates.AnswerDecimals | internal/dal/telemetry_datas_aggregate.go:50-50 | all values but differences have at most four decimals |
| Aggregates.BucketsTotal | internal/dal/telemetry_datas_aggregate.go:48-57 | the exact bucket sums add up to the exact total |
| Aggregates.AnswerTotals | internal/dal/telemetry_datas_aggregate.go:45-71 | reported sums total the numbers of the range within half a unit of the fourth decimal per row |
| Aggregates.AnswerAverages | internal/dal/telemetry_datas_aggregate.go:45-71 | row by row the reported averages lie between the reported minima and maxima |
| Aggregates.AnswerMaximum | internal/dal/telemetry_datas_aggregate.go:45-71 | the largest reported maximum is the rounded maximum of the range; an empty range has no rows |
| Aggregates.AnswerMinimum | internal/dal/telemetry_datas_aggregate.go:45-71 | the smallest reported minimum is the rounded minimum of the range; an empty range has no rows |
| Aggregates.AnswerDifferences | internal/dal/telemetry_datas_aggregate.go:74-101 | a reported difference is never negative, and zero iff all numbers of its bucket are equal |
| Migrations.Database.constructor | initialize/pg_init.go:189-193 | a database without a version table |
| Migrations.Database.RunScripts | initialize/pg_init.go:226-250 | the loop runs every missing script in order or stops at the first that is missing, unreadable or fails |
| Migrations.Database.CheckVersion | initialize/pg_init.go:184-263 | a boot changes committed state only if it upgrades or initialises; it succeeds iff the program is not older, version 0 was never stored, and all missing scripts run |
| Migrations.StepConsistent | initialize/pg_init.go:184-263 | one boot keeps one version row v and the committed scripts 1..v |
| Migrations.RunConsistent | initialize/pg_init.go:184-263 | after any boots, failed, crashed or downgraded, the committed scripts are 1..v in order, each once |
| Migrations.ZeroNeverStored | initialize/pg_init.go:208-215 | programs of version 1 and up never leave the version-0 row behind |
| Migrations.VersionZeroLocksOut | initialize/pg_init.go:208-215 | a first boot at version 0 makes every later boot fail |
| DeviceStatus.Store.constructor | initialize/redis_init.go:26-53 | the given rows, an empty cache, no history |
| DeviceStatus.Store.GetDeviceCacheById | initialize/redis_init.go:127-145 | a readable entry, else the row, which then is cached; a failing cache write is an error |
| DeviceStatus.Store.UpdateDeviceStatus | internal/dal/devices.go:68-141 | reply and new row, cache and history on every path, including failing cache deletes and history saves; a change writes the status, the offline time if it goes offline, and no other column |
| DeviceStatus.AnswerIs | internal/dal/devices.go:68-122 | the reply by the cached status if the entry is readable, else by the row's: unchanged iff it has the status already, changed iff it has not and the row is there and the database writes it |
| DeviceStatus.Store.DelDeviceCache | initialize/redis_init.go:179-185 | the entry goes unless Redis fails |
| DeviceStatus.CallAgreesIff | internal/dal/devices.go:68-141 | a call keeps cache equal to row, history alternating and ending with the status, iff a change it makes leaves no stale readable cache entry and is missing from no existing history |
| DeviceStatus.FaultlessClean | internal/dal/devices.go:124-138 | calls whose deletions and saves succeed are such calls |
| DeviceStatus.RunAgrees | internal/dal/devices.go:68-141 | the agreement holds over every run of such calls |
| DeviceStatus.TruthfulIff | internal/dal/devices.go:88-130 | the reply tells exactly the actual changes iff the cached status of an unchanged row is current, and the row ends as asked iff that of a changed row is |
| DeviceStatus.CoherentTruthful | internal/dal/devices.go:68-141 | with a coherent cache the reply is true exactly when the row's status changes |
| DeviceStatus.FailedDeleteRepeats | internal/dal/devices.go:124-128 | after one failed cache delete the same change is recorded twice |
| ProtocolPlugins.CreateAgrees | internal/dal/protocol_plugins.go:20-81 | creating a plugin with a free pair keeps plugins, dictionary rows and language rows in one-to-one agreement |
| ProtocolPlugins.TypesApart | internal/dal/protocol_plugins.go:24-32 | the two device types have their own dictionary codes, so their pairs never coincide |
| ProtocolPlugins.CreateLeaves | internal/dal/protocol_plugins.go:20-81 | the three rows of a created plugin, column by column |
| ProtocolPlugins.DeleteLeaves | internal/dal/protocol_plugins.go:84-136 | exactly the plugin's row, its dictionary row and the language rows of that go |
| ProtocolPlugins.UpdateLeaves | internal/dal/protocol_plugins.go:139-232 | the rows after an update, column by column: blank names and languages are not written, and none if neither changes |
| ProtocolPlugins.DeleteAgrees | internal/dal/protocol_plugins.go:84-136 | so does deleting one |
| ProtocolPlugins.UpdateAgreesIff | internal/dal/protocol_plugins.go:139-232 | a committed update keeps the agreement iff it does not blank a name |
| ProtocolPlugins.StepAgrees | internal/dal/protocol_plugins.go:20-232 | every call, failed, lost or committed, keeps the agreement |
| ProtocolPlugins.RunAgrees | internal/dal/protocol_plugins.go:20-232 | over every run the three tables agree on code, value and translated name |
| ProtocolPlugins.DeleteUndoesCreate | internal/dal/protocol_plugins.go:20-136 | deleting a plugin just created restores all three tables |
| ProtocolPlugins.UpdateAdmitted | internal/dal/protocol_plugins.go:168-218 | in agreeing tables an update to a free pair meets no constraint violation |
| ProtocolPlugins.Database.constructor | internal/dal/protocol_plugins.go:20-30 | three empty tables |
| ProtocolPlugins.Database.CreateProtocolPluginWithDict | internal/dal/protocol_plugins.go:20-81 | success commits all three rows, any error return leaves the committed tables unchanged, and with a free pair and no fault it succeeds |
| ProtocolPlugins.Database.DeleteProtocolPluginWithDict | internal/dal/protocol_plugins.go:84-136 | without faults success is replied iff the plugin and its pair are found, whether the commit fails or not; the plugin, its dictionary row and its language rows are gone iff the commit went through, else nothing changed |
| ProtocolPlugins.LostDeleteReportsSuccess | internal/dal/protocol_plugins.go:134-135 | a call whose commit fails replies success and leaves the plugin |
| ProtocolPlugins.Database.UpdateProtocolPluginWithDict | internal/dal/protocol_plugins.go:139-232 | the rows of the old pair are rewritten in place if the commit goes through, else nothing changes; in agreeing tables and without faults an update to a free pair replies success either way |
| ProtocolPlugins.LostUpdateReportsSuccess | internal/dal/protocol_plugins.go:229-231 | a rename whose commit fails replies success and leaves the old name |
| ServiceManager.Conservation | internal/app/service.go:40-114 | the wait counter is successful starts minus ended stops, and only failed StartAlls and late registrations leave a residue |
| ServiceManager.PanicsIff | internal/app/service.go:87-94 | goroutines in flight can drive the counter negative iff more are in flight than it counts |
| ServiceManager.NeverNegative | internal/app/service.go:40-109 | without registrations while started the counter never goes negative, even after failed StartAlls |
| ServiceManager.WaitReturnsIff | internal/app/service.go:112-114 | Wait returns after a full stop iff late registrations balance abandoned starts |
| ServiceManager.LateRegistrationPanics | internal/app/service.go:40-109 | register, start, register, stop, and both stops ending: the counter is at -1 |
| ServiceManager.FailedStartBlocksWait | internal/app/service.go:49-114 | a StartAll that fails at the second service leaves one count behind for good |
| ServiceManager.ServiceManager.constructor | internal/app/service.go:33-37 | nothing registered, not started |
| ServiceManager.ServiceManager.RegisterService | internal/app/service.go:40-47 | appended at the end, whether started or not |
| ServiceManager.ServiceManager.StartAll | internal/app/service.go:49-68 | starts in order up to the first failure, counting each; refuses when started |
| ServiceManager.ServiceManager.StopAll | internal/app/service.go:70-109 | stops are launched in exact reverse order of registration, each returned before the next is launched unless the stops so far use up thirty seconds |
| ServiceManager.ServiceManager.GoroutineEnds | internal/app/service.go:87-94 | one end, one less on the counter |
| MenuTree.RankingExists | internal/dal/ui_elements.go:148-164 | on every table whose permitted menu does not contain the roots' parent id, cyclic elsewhere or not, the elements under the roots can be ranked, so the recursion ends |
| MenuTree.FiniteOnlyIfRooted | internal/dal/ui_elements.go:148-164 | on every other table no finite menu exists |
| MenuTree.SelfListedRoot | internal/dal/ui_elements.go:148-164 | a single root with the id "0" has no finite menu |
| MenuTree.FaithfulCount | internal/dal/ui_elements.go:148-164 | below any parent an element occurs exactly once if it is reached through permitted elements, otherwise never |
| MenuTree.MenuCount | internal/dal/ui_elements.go:66-85 | an element is in the menu exactly once iff it and all ancestors up to a root carry the authority |
| MenuTree.MenuIs | internal/dal/ui_elements.go:66-85 | an id occurs in the menu, and then once, iff a chain of elements with the authority leads from a child of "0" down to it |
| MenuTree.FaithfulPermitted | internal/dal/ui_elements.go:66-164 | no node of the menu lacks the authority asked for, each hangs from the node above it, and siblings come in their order |
| MenuTree.SiblingsOrdered | internal/dal/ui_elements.go:148-154 | siblings come in their order |
| MenuTree.QueryChildrenByAuthority | internal/dal/ui_elements.go:148-164 | the recursion ends and builds the forest the queries describe |
| MenuTree.ServeUiElementsListByAuthority | internal/dal/ui_elements.go:66-85 | the whole menu: each permitted element exactly once, no element without the authority, children under their parent in order; a failing root query is an error |

## Left out

- AlarmIndex.RunDeleteErasesIff: asks that the calls on the group settle, which callers do not always ensure and, once a record has expired, cannot see from their arguments; the condition per call is exact (`AccountedIffSettles`) and is spelled out over the lists in `SetDeviceSettlesIff` and `SetAlarmSettlesIff`.
- AlarmIndex.DeleteUndoesIff: no key expires between the calls.
- `GetAlarmDeviceExists` builds its key from other ids than the writers do, so no claim is made about it.
- AutomateTheorems.SetThenRead: says nothing about completeness against the database; on a missing base entry the source stores a list with the new scene only, and so does the model.
- AutomateCache.AutomateCache.SetCacheBySceneAutId: a condition of the triggering type without a trigger source panics in the source; the model's trigger type always carries one.
- AutomateObject.SeenRun: calls on the shared object are taken one at a time; racing changes of its unlocked `device` field are not modelled.
- AutomateRuns.RunLastWritten: JSON is a lossless round trip, and only this code writes the keys.
- OneTimeTasks.DispatchedOnce: a task counts as handed out when it is written, also if the worker dies before returning; errors while releasing are crashes.
- PeriodicTasks.ReturnedOnce: the query may return any set of due rows, so its order and limit are not used; edits of a row's execution time by other code are not steps.
- PeriodicTasks.Store.GetPeriodicTaskListWithLock: the call is stated undisturbed but for the clock; interleavings with other workers are runs of the step machine.
- NextTime.GetSceneExecuteTime: the zone has a fixed offset, the texts are parsed already, and the answer of the cron library is an input: the zero time or any later time.
- Telemetry.RoundHealsIff: gRPC time-series backends, single-row inserts and deletions of old rows are not steps; both tables are assumed to be written only by these two calls.
- Telemetry.BatchInSyncIff: timestamps must fit in a 64-bit count of nanoseconds (years 1677 to 2262).
- DiffWindows.GetDiffValueInTimeWindow: the two queries of a window are taken as independent. The source builds both on one query builder; if the ORM lets the second inherit the first one's ordering, both read the latest row. The library is not part of this model.
- DiffWindows.GetDiffData: the zone has a fixed offset, the formatted time text beside each row is not modelled, numbers are reals.
- Aggregates.AnswerTotals: values are reals; floating-point summation and the overflow of NUMERIC(16,4) are not modelled, and the window is positive (the database refuses a remainder by zero).
- Migrations.Database.CheckVersion: script bodies are opaque, boots do not overlap in time, and the version's text column is not modelled.
- DeviceStatus.RunAgrees: history saves run in goroutines in the source; the model appends them in call order. `UpdateDeviceOnlineStatus`, which writes the row without dropping the cache entry, is not a step.
- ProtocolPlugins.RunAgrees: language rows added or dropped by the dictionary's own API are not steps; early error returns that leave a transaction open count as rolled back.
- ServiceManager.ServiceManager.StopAll: once the budget is used up, a stop that ends at the same moment may still be reported as returned by the source's select; the model reports a timeout.
- MenuTree.QueryChildrenByAuthority: children are collected as values and not by appending to the parent's own slice; the table is given in ORDER BY order.
- MenuTree.ServeUiElementsListByAuthority: the separate count query and the per-user tree over casbin rules are not modelled.
- Request handling, MQTT and WebSocket I/O, ordinary list and page queries, the rate limiter, logging and id generation are not modelled: they have no invariant across functions.
