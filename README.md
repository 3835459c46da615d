# Monorepo group tracking, modelled in Dafny

This project models the monorepo logic of greenkeeper's `lib/monorepo.js`. That logic has three parts:

- **Group lookup.** A static table maps each group name to the packages it publishes together. The lookup returns the group a package belongs to; `isPartOfMonorepo` is its boolean form.
- **Convergence check.** `hasAllMonorepoUdates` reads the registry entries of every member of a package's group. It drops rows the bulk read returned with an error. It indexes the remaining documents by `_id` and decides whether the group has been published at a target version.
- **Pending-release sweep.** `pendingMonorepoReleases` returns the `monorepo:<group>` marker documents whose `updatedAt` is older than a wait threshold, oldest first. The tests import it from lib/monorepo.js (test/lib/monorepo.js:115), but that file neither defines nor exports it (lib/monorepo.js:38-42). The model follows the contract its tests state.

Modules, one per component:

- `wrappers.dfy`: `Option` and `Result`.
- `documents.dfy`: the documents of the store (`_id`, `distTags`, optional `updatedAt`) and the rows of a bulk read. Instants are integers in milliseconds.
- `registry.dfy`: the group definitions as an ordered sequence of groups, in `Object.keys` order, with each group name once (as in a JavaScript object). Also the lookup, the membership test, `monorepoDefinitions[group]` and the shipped `pouchdb` definition.
- `convergence.dfy`: the error filter, and the lookup table as a method with a loop, proved equal to a left fold. Also the "any member" fold as written, the "every member" fold, and the corrected `hasAllMonorepoUdates`.
- `pending.dfy`: the sweep as a pure filter followed by an insertion sort, and the three seeded sweeps of the tests.

I/O is replaced by parameters. The bulk read becomes the sequence of rows it returned (`rows`). The store scan becomes the sequence of documents (`docs`). The clock becomes `now`, and the wait threshold becomes `wait`.

The model follows JavaScript truthiness where the source relies on it:
- The inner `find` returns the matched string, so an empty package name never selects a group.
- `!!group` treats a group named `""` as no group.
- An empty `latest` tag never matches a version, not even an empty one.

Where the intended behaviour differs from the code, the model keeps both versions (see "## Findings"). The rest of the model uses the corrected one:
- the lookup returns the group it finds;
- the fold runs over the group's member list;
- convergence requires every member.

When the dependency belongs to no group, the source reaches `undefined.reduce` and throws. The model returns `Err(NotInAnyGroup)` instead.

The test at test/lib/monorepo.js:108-111 calls `getMonorepoGroupNameForPackage`, which lib/monorepo.js neither defines nor exports. The model treats it as `getMonorepoGroup` with its `return`.

## Model

| member | source | states |
|---|---|---|
| `Registry.FindMember` | lib/monorepo.js:46 | the inner `find` yields a value exactly when the name is in the member list, and that value is the name itself |
| `Registry.Contains` | lib/monorepo.js:45-46 | a group is selected for a name iff the name is one of its members and is not the empty string (an empty match is falsy) |
| `Registry.FindGroup` | lib/monorepo.js:45-46 | the outer `find` returns no group iff no group contains the name; otherwise it returns a group that contains it, and no earlier group does |
| `Registry.GetMonorepoGroup` | lib/monorepo.js:44-47 | the lookup finds a group iff some group contains the name; the group it returns is the first one in key order whose member list holds the name, by exact string equality |
| `Registry.IsPartOfMonorepo` | lib/monorepo.js:3-5 | true iff the first group, in key order, that holds the non-empty name is not itself named `""`; so true only for a non-empty name listed in some group, and when no group name is empty, true iff the name is a non-empty member of some group |
| `Registry.MembersOf` | lib/monorepo.js:13 | `monorepoDefinitions[group]` yields a list iff a group has that name, and the list is that group's members |
| `Registry.LookedUpGroupHoldsName` | lib/monorepo.js:10-13 | the member list read for the looked-up group contains the package that was looked up (a JavaScript object has each key once, which the `Definitions` type states) |
| `Registry.GetMonorepoGroupAsWritten` | lib/monorepo.js:44-47 | as written (no `return`), the lookup yields no group for any input |
| `Registry.IsPartOfMonorepoAsWritten` | lib/monorepo.js:3-5 | on top of the lookup as written, `isPartOfMonorepo` is false for every input and definitions; `Registry.AsWrittenMissesPouchdbMd5` sets it against the corrected lookup |
| `Registry.PouchdbMd5InPouchdb` | test/lib/monorepo.js:108-111 | `pouchdb-md5` resolves to `pouchdb` in the shipped definitions and is part of a monorepo |
| `Registry.SomeDepInNoGroup` | test/lib/monorepo.js:31-35 | `some-dep` resolves to no group and is not part of a monorepo |
| `Registry.AsWrittenMissesPouchdbMd5` | lib/monorepo.js:44-47 | as written, `pouchdb-md5` is reported as not part of a monorepo although the corrected lookup finds it |
| `Convergence.DropErrors` | lib/monorepo.js:13-14 | a document survives the error filter iff the bulk read returned it without an error; the filter never lengthens the list |
| `Convergence.DropErrorsAppend` | lib/monorepo.js:14 | the filter preserves order: filtering a concatenation concatenates the filtered parts |
| `Convergence.TableOf` | lib/monorepo.js:18-21 | the lookup table's keys are exactly the documents' ids; each entry is a document listed under that id |
| `Convergence.TableOfLastWins` | lib/monorepo.js:18-21 | a later document with the same `_id` replaces an earlier one: the last document with an id is the table entry for it |
| `Convergence.BuildRegistryTable` | lib/monorepo.js:18-21 | the assignment loop `acc[doc._id] = doc` builds exactly the fold's table |
| `Convergence.AtVersion` | lib/monorepo.js:25-27 | a member matches only if the table holds it, the target version is non-empty and its `latest` tag equals the version; a table entry whose `latest` equals a non-empty version always matches |
| `Convergence.AnyMatchFrom` | lib/monorepo.js:24-31 | the reducer as written never turns a true accumulator back to false; `Convergence.AnyMatchFromIff` gives its full behaviour |
| `Convergence.AnyMatchFromIff` | lib/monorepo.js:24-31 | the fold as written ends true iff it started true or at least one member matches, regardless of the others |
| `Convergence.AnyMatch` | lib/monorepo.js:24-31 | started from `false` (so an empty list yields false), the fold as written is true iff at least one member matches |
| `Convergence.AllMatchFrom` | lib/monorepo.js:24-31 | the corrected reducer never turns a false accumulator back to true; `Convergence.AllMatchFromIff` gives its full behaviour |
| `Convergence.AllMatchFromIff` | test/lib/monorepo.js:69-106 | the corrected fold ends true iff it started true and every member matches |
| `Convergence.AllMatch` | test/lib/monorepo.js:69-106 | the corrected fold, started from `true`, is true iff every member matches |
| `Convergence.AllImpliesAny` | lib/monorepo.js:24-31 | on a non-empty group, every member matching implies the as-written answer is true |
| `Convergence.AbsentMembersNeverMatch` | lib/monorepo.js:24-27 | a true as-written answer needs some member present in the table; a member missing from the table makes the corrected answer false |
| `Convergence.AtVersionHasRow` | lib/monorepo.js:13-27 | a matching member was returned by the bulk read, without error, with `latest` equal to the version |
| `Convergence.GroupOf` | lib/monorepo.js:10-13 | the member list used for a dependency is the member list of a group whose name is the looked-up one, and it contains the dependency |
| `Convergence.HasAllMonorepoUpdates` | lib/monorepo.js:7-36 | fails iff the dependency belongs to no group; otherwise answers true iff every member of its group matches in the table built from the error-free rows |
| `Convergence.ConvergedCoversDependency` | lib/monorepo.js:7-36 | a converged answer means the dependency itself was read back at the target version |
| `Convergence.HasAllMonorepoUpdatesAsWritten` | lib/monorepo.js:7-36 | as written, apart from the `.filter` fix, every call fails with a TypeError from `group.reduce`, whatever the definitions, rows, dependency and version |
| `Convergence.DropErrorsAllFound` | lib/monorepo.js:14 | when no row carries an error, the filter returns every row's document, in order |
| `Convergence.FruitsFixture` | test/lib/monorepo.js:37-67 | two members both at 2.0.0: both the as-written and the corrected fold say converged |
| `Convergence.CitiesFixture` | test/lib/monorepo.js:69-106 | koeln/hamburg/berlin at 2.0.0/1.0.0/2.0.0: the as-written fold says converged, the corrected fold does not |
| `Convergence.FruitsScenario` | test/lib/monorepo.js:17-67 | with the `fruits` group and both members read back at 2.0.0, `@avocado/dep` is part of a monorepo and the corrected check answers converged |
| `Convergence.CitiesScenario` | test/lib/monorepo.js:69-106 | with the `cities` group and hamburg read back at 1.0.0, the corrected check for berlin at 2.0.0 answers not converged |
| `Pending.SelectStale` | test/lib/monorepo.js:114-157 | a document is selected iff it is a `monorepo:` marker with `updatedAt` strictly older than `now - wait`; each stale marker is kept exactly as often as the store lists it, and nothing else is kept |
| `Pending.Insert` | test/lib/monorepo.js:177-180 | inserting into an oldest-first list keeps it oldest-first and adds exactly the one document |
| `Pending.SortOldestFirst` | test/lib/monorepo.js:177-180 | the sort orders by `updatedAt`, oldest first, and is a permutation of its input |
| `Pending.PendingMonorepoReleases` | test/lib/monorepo.js:114-187 | the sweep's result is oldest first and is a permutation of the stale markers: each stale marker appears exactly as often as in the store, nothing else appears |
| `Pending.NothingStaleNothingPending` | test/lib/monorepo.js:183-187 | a store without stale markers, in particular an empty one, yields an empty sweep |
| `Pending.LaterSweepReturnsMore` | test/lib/monorepo.js:114-135 | a marker returned by a sweep is returned by every later sweep with the same threshold |
| `Pending.MarkerAgedStale` | test/lib/monorepo.js:117-131 | a marker refreshed m minutes ago is stale iff m minutes exceed the threshold |
| `Pending.Sweep11And44` | test/lib/monorepo.js:114-135 | markers aged 11 and 44 minutes: the sweep returns both (44 first), only the 44-minute one, or none, as the threshold grows |
| `Pending.Sweep12And22` | test/lib/monorepo.js:137-157 | markers aged 12 and 22 minutes: the sweep returns nothing once the threshold reaches 22 minutes |
| `Pending.Sweep55And66` | test/lib/monorepo.js:159-181 | markers aged 55 and 66 minutes: below 55 minutes the sweep returns both, 66 before 55 |
| `Pending.SweepOutcomesPinThreshold` | test/lib/monorepo.js:114-181 | the three seeded sweeps give exactly the expected results iff 22 minutes <= threshold < 44 minutes |
| `Pending.SweepWithoutData` | test/lib/monorepo.js:183-187 | an empty store yields no pending releases |

## Left out

- Store access (`dbs()`, `npm.allDocs`, `npm.put`) and the clock are I/O. The rows of the bulk read, the scanned documents and `now` are parameters.
- The bulk read's keys are not modelled. `rows` stands for whatever the store returned for the group's member list.
- Failures of the store itself are not modelled. In the source they propagate to the caller.
- The `.filter` at lib/monorepo.js:13-14 is chained onto the promise that `allDocs` returns. The model filters the list of returned rows, which is what the line evidently means. The model also reads each error-free row as the full registry document, with its `_id` and `distTags` (lib/monorepo.js:19, 27). The call `allDocs({ keys })` at lib/monorepo.js:13 does not ask for document bodies, so its rows would carry only `id`, `key` and `value`.
- The `try { … } catch (err) { throw err }` at lib/monorepo.js:9 and 33-35 rethrows unchanged and adds no behaviour.
- Module mocking that replaces the lookup at run time is not modelled. The group definitions are a parameter instead.
- A registry document without a `distTags` object makes lib/monorepo.js:27 throw a TypeError. The model gives every document a `distTags` dictionary.
- Convergence.AtVersion: the source's table is the object literal `{}`, so `registryChanges[packageName]` at lib/monorepo.js:25 also finds properties inherited from `Object.prototype`. A member named `constructor` or `toString` that the bulk read did not return makes lib/monorepo.js:27 throw a TypeError. The model's table holds only the documents' ids, and such a member simply does not match.
- `Object.keys` lists integer-like keys first, in numeric order. The model takes the definitions' order as given.
- The lookup is the nested linear search the source performs. There is no precomputed reverse index.
- Creating, refreshing and deleting pending markers is not modelled. lib/monorepo.js writes no markers; the tests insert them with `npm.put` (test/lib/monorepo.js:117-131).
- Timestamps are integer milliseconds. The ISO-8601 strings of the tests are not parsed.
- The threshold of `pendingMonorepoReleases` is a parameter, because its definition is not available. The tests only bracket it (`Pending.SweepOutcomesPinThreshold`). In the tests a marker's `updatedAt` is computed when it is stored, slightly before the sweep runs, so at sweep time the 22-minute marker is a little older than 22 minutes. The tests therefore do not pin the endpoints. The bracket 22 min <= threshold < 44 min is exact only for markers aged from the sweep's own `now`, as the model ages them.
- Pending.SortOldestFirst: the order of markers with equal `updatedAt` is fixed by the insertion sort, but no stability property is proved about it.
- Concurrency between publish events and sweeps is not modelled. Each operation is a function of one snapshot of the store.
- lib/repository-docs.js is not part of this model. `updateRepoDoc` orchestrates file fetching and validation, and `createDocs` depends on random bytes and an unseen timestamp helper.

## Findings

| source | as written | input that shows it | evidently intended | confidence | as-written member | corrected member |
|---|---|---|---|---|---|---|
| lib/monorepo.js:44-47 | `getMonorepoGroup` evaluates the `find` but has no `return`, so it yields `undefined` and `isPartOfMonorepo` is always false | `isPartOfMonorepo('pouchdb-md5')` with the shipped definitions | return the name of the group found | high; not executed | `Registry.AsWrittenMissesPouchdbMd5` | `Registry.GetMonorepoGroup` |
| lib/monorepo.js:24 | apart from the `.filter` chained onto the promise at lines 13-14 (which already fails), the fold calls `group.reduce` on the group name (a string, or `undefined` as written), which throws | any call, for example `hasAllMonorepoUdates('berlin', '2.0.0')` | fold over `monorepoDefinitions[group]` | high; not executed | `Convergence.HasAllMonorepoUpdatesAsWritten` | `Convergence.HasAllMonorepoUpdates` |
| lib/monorepo.js:24-31 | the fold returns true as soon as any member matches | group koeln/hamburg/berlin at 2.0.0/1.0.0/2.0.0, target 2.0.0: true, while test/lib/monorepo.js:69-106 expects false | true only when every member matches | high; not executed | `Convergence.CitiesFixture` | `Convergence.AllMatch` |
