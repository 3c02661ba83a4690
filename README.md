# Identity reconciliation service, modelled in Dafny

The service keeps a table of `Contact` rows. Each row has an email, a phone number or both. Each row is either a **primary** or a **secondary** linked to a primary. Together they form one customer identity.

The model covers the two operations of `ContactService`:

- **`identifyContact(email?, phoneNumber?)`** runs these steps:
  1. It looks up the live rows that share the request's email or phone number.
  2. It picks a primary: the oldest matched primary, or, when no primary matched, the oldest match.
  3. It gathers that primary's cluster together with the other matched roots.
  4. When this set holds several primaries, it demotes all but the oldest.
  5. It re-reads the cluster and inserts a new secondary when the request brings a new email or phone number.
  6. It returns the primary.
  7. When nothing matched, it inserts a fresh primary instead.
- **`getConsolidatedContact(id)`** reads a contact and the live rows linked to it. It returns de-duplicated emails and phone numbers, the contact's own values first, and the ids of the linked rows.

The project has seven modules:

- `contacts.dfy`, module `Contacts`:
  - the `Contact` record and the `primary`/`secondary` enum;
  - JavaScript truthiness and `===` on optional strings;
  - `filter`, and sort-then-take-first as `Oldest`.
- `store.dfy`, module `Store`:
  - an in-memory stand-in for the Prisma `contact` table, as the class `ContactStore`;
  - the `where` clauses the service issues, as the datatype `Where`;
  - `findMany`, `findUnique`, `create` and `update`;
  - the table invariant `ValidTable`. It requires rows in insertion order, with strictly increasing ids and creation times below the next autoincrement id.
  - the link-column invariant `Coherent`: a row is primary exactly when its `linkedId` is NULL. Every write of `identifyContact` keeps it (lines 83-89, 119-126, 133-139).
- `identity.dfy`, module `Identity`:
  - `Identify`, the whole of `identifyContact` as a function of the table. It is built from the stages `Matched`, `Candidate`, `Related`, `Survivor`, `Merged` and `Record`.
  - `IdentifyContact`, which performs the call against a `ContactStore` one query and one write at a time. The demotion `for` loop is the method `DemoteOthers`. `IdentifyContact` is proved to leave exactly the table `Identify` describes and to return the same result.
- `consolidation.dfy`, module `Consolidation`:
  - `Consolidate`, the read-only projection as a function of the table;
  - `GetConsolidatedContact`, which builds the answer with the source's `forEach` accumulation and is proved equal to `Consolidate`.
- `response.dfy`, module `Response`: the two operations chained as the controller chains them (`src/controllers/identifyController.ts:14-15`), with the lemma that the view of the returned contact shows every truthy requested value.
- `idempotence.dfy`, module `Idempotence`: submitting the same request twice. On a valid, coherent table the second call returns what the first returned and writes nothing.
- `scenarios.dfy`, module `Scenarios`: worked examples. Each is a lemma proved about `Identify` and `Consolidate` on a small literal table. They cover the two-primary merge and the two behaviours described in the next section.

How the source's values are represented:

- A missing request field (`undefined`) and a NULL column are both `None`. They never compare equal under `===`, so `StrictEquals` needs both sides present.
- `create` stores the request values as they are. An empty string stays an empty string.
- Creation time is the autoincrement counter, so "oldest" means smallest id.

Two behaviours of the code break the invariant one would expect of the table: every secondary points directly at its cluster's primary, and every returned contact is a primary. The model keeps both as the code has them:

- **Secondaries of a demoted primary are not re-linked.** The loop at `src/services/contactService.ts:81-91` updates only the demoted primaries. Their old secondaries keep their `linkedId`, which now names a secondary. They drop out of the survivor's consolidated view (`Scenarios.DemotedPrimaryKeepsItsSecondaries`).
- **The fallback candidate can be a secondary.** The comment at `src/services/contactService.ts:55-56` expects the fallback not to happen. The code reaches it whenever a request matches only secondaries. The returned "primary" is then a secondary, and the new row is linked to it (`Scenarios.RequestMatchingOnlyASecondary`).

Sorting at lines 53, 57 and 79 compares `createdAt` only. On a valid table creation times are distinct, so the oldest row is unique.

## Model

| member | source | states |
|---|---|---|
| Contacts.Filter | src/services/contactService.ts:49 | `list.filter(p)` keeps exactly the elements of the list that satisfy `p` and never grows the list |
| Contacts.FilterKeepsOrder | src/services/contactService.ts:77 | filtering a list ordered by id and creation time keeps it ordered |
| Contacts.Oldest | src/services/contactService.ts:53 | sort by `createdAt` then take `[0]` yields an element of the list created no later than any other element |
| Store.SelectIsOldestFirst | src/services/contactService.ts:10-29 | on a valid table every `findMany` result is already in ascending `createdAt` order, which is what `orderBy: { createdAt: 'asc' }` asks for |
| Store.IdsAreUnique | src/types/contact.d.ts:4 | on a valid table two rows with the same id are the same row |
| Store.FindUnique | src/services/contactService.ts:146-148 | `findUnique({ id })` finds a row exactly when some row, deleted or not, has the id, and the row it returns has that id |
| Store.UpdateLink | src/services/contactService.ts:83-89 | `update` keeps the length, and keeps every row's id, email, phone number, creation time and deletion time; rows with the given id get the new `linkedId` and `linkPrecedence`; every other row is unchanged |
| Store.UpdateLinkIsIdempotent | src/services/contactService.ts:83-89 | issuing the same `update` twice leaves the same table as issuing it once |
| Store.Matches | src/services/contactService.ts:10-29 | no contract of its own: the `where` clauses of the `findMany` calls, each demanding `deletedAt: null`; `Identity.LookupQuery` and `Identity.RelatedRows` characterise the clauses the service builds |
| Store.Select | src/services/contactService.ts:10-29 | no contract of its own: `findMany` as `Filter` by `Matches` in table order; `Contacts.Filter` gives its membership and `Store.SelectIsOldestFirst` its order |
| Store.NewRow | src/services/contactService.ts:119-126 | no contract of its own: the row `create` inserts, with the next id, the given columns and no deletion time; used by `Store.ContactStore.Create` and characterised by `Identity.IdentifyCreatesPrimaryWhenNothingMatches` and `Identity.RecordAppendsAtMostOne` |
| Store.AppendKeepsTableValid | src/services/contactService.ts:119-126 | appending a row that carries the next id and creation time keeps the table valid |
| Store.UpdateLinkKeepsTableValid | src/services/contactService.ts:83-89 | rewriting link columns keeps the table valid |
| Store.ContactStore.Create | src/services/contactService.ts:119-126 | `create` appends one live row with the next id and the given columns, returns it, advances the id counter and keeps the table valid |
| Store.ContactStore.Update | src/services/contactService.ts:83-89 | `update` on an existing id changes the table exactly as `UpdateLink` does, keeps the counter and keeps the table valid |
| Identity.LookupQuery | src/services/contactService.ts:9-32 | the call is rejected exactly when neither identifier is truthy; otherwise the chosen `where` clause selects exactly the live rows sharing a truthy identifier |
| Identity.Matched | src/services/contactService.ts:9-29 | the first lookup returns exactly the table's live rows that carry the request's truthy email or truthy phone number |
| Identity.UnlinkedPrimaryIds | src/services/contactService.ts:68 | no contract of its own: the ids of matched primaries with no `linkedId`; characterised by `Identity.RelatedRows` |
| Identity.Related | src/services/contactService.ts:61-74 | no contract of its own: the second lookup; characterised by `Identity.RelatedRows` |
| Identity.RelatedRows | src/services/contactService.ts:61-74 | the second lookup returns exactly the live rows that are the candidate, are linked to the candidate, or carry the id of a matched primary that has no `linkedId` |
| Identity.Survivor | src/services/contactService.ts:77-92 | no contract of its own: the oldest related primary when there are several, else the candidate; characterised by `Identity.IdentifyMergesPrimaries` (several primaries) and `Identity.IdentifyWithoutMerge` (at most one) |
| Identity.Merged | src/services/contactService.ts:77-93 | no contract of its own: the table after the merge step; characterised by `Identity.MergedOnlyDemotesPrimaries` and `Identity.DemotionTouchesOnlyOtherPrimaries`, and by `Identity.IdentifyWithoutMerge` for the unchanged table when at most one primary is related |
| Identity.HasExactPair | src/services/contactService.ts:111-113 | no contract of its own: some re-read row `===`s both requested values; characterised by `Identity.OneFieldNeverMatchesExactPair` and `Identity.RecordAppendsAtMostOne` |
| Identity.BringsNewValue | src/services/contactService.ts:117-118 | no contract of its own: a truthy requested email or phone number that no re-read row `===`s; characterised by `Identity.RecordAppendsAtMostOne` |
| Identity.Record | src/services/contactService.ts:95-129 | no contract of its own: the re-read and the conditional insert; characterised by `Identity.RecordAppendsAtMostOne` |
| Identity.Resolve | src/services/contactService.ts:49-129 | no contract of its own: primary choice, merge and record once something matched; characterised by `Identity.ResolveWithoutMerge`, `Identity.IdentifyInsertsAtMostOneSecondary`, `Identity.IdentifyMergesPrimaries`, `Identity.IdentifyOnlyRelinksPrimaries` and `Response.ResolveShowsRequest` |
| Identity.Identify | src/services/contactService.ts:5-143 | no contract of its own: the whole call as a function of the table; characterised by `Identity.IdentifyRejectsMissingIdentifiers`, `Identity.IdentifyCreatesPrimaryWhenNothingMatches`, `Identity.IdentifyInsertsAtMostOneSecondary`, `Identity.IdentifyMergesPrimaries`, `Identity.IdentifyWithoutMerge`, `Identity.IdentifyOnlyRelinksPrimaries`, `Identity.IdentifyKeepsTableValid`, `Idempotence.IdentifyIsIdempotent` and `Response.IdentifyThenConsolidateShowsRequest` |
| Identity.IdentifyWithoutMerge | src/services/contactService.ts:77-93 | when something matched and the related rows hold at most one primary, the candidate is returned and every existing row is unchanged; the table only grows |
| Identity.ResolveWithoutMerge | src/services/contactService.ts:77-93 | the same for the merge-and-record step once the lookup has matched rows |
| Identity.Candidate | src/services/contactService.ts:49-58 | the candidate is a matched row; when some matched row is primary it is a primary with the smallest `createdAt` among matched primaries, otherwise it has the smallest `createdAt` among all matched rows |
| Identity.DemoteAll | src/services/contactService.ts:81-91 | after the loop, every row whose id is listed and is not the winner's is a secondary linked to the winner, and every other row is unchanged |
| Identity.DemoteOthers | src/services/contactService.ts:81-91 | the `for` loop of `update` calls leaves exactly the table `DemoteAll` describes, keeps the counter and keeps the table valid |
| Identity.DemoteAllKeepsTableValid | src/services/contactService.ts:81-91 | the demotion loop keeps a valid table valid |
| Identity.DemoteAllKeepsIds | src/services/contactService.ts:81-91 | the demotion loop changes no row's id |
| Identity.IdentifyKeepsTableValid | src/services/contactService.ts:5-143 | every call leaves a valid table valid |
| Identity.IdentifyRejectsMissingIdentifiers | src/services/contactService.ts:9-32 | the call fails with the missing-identifier error exactly when neither email nor phone number is truthy, and then the table and the counter are unchanged |
| Identity.IdentifyCreatesPrimaryWhenNothingMatches | src/services/contactService.ts:131-139 | when no live row shares an identifier, exactly one row is appended: a primary without `linkedId` that carries the request's email and phone number and the next id; that row is returned |
| Identity.RecordAppendsAtMostOne | src/services/contactService.ts:95-129 | after the re-read, the table keeps all its rows and gains one row exactly when no cluster row has the exact pair and the request brings a new truthy email or phone; that row is a secondary linked to the returned primary |
| Identity.IdentifyInsertsAtMostOneSecondary | src/services/contactService.ts:111-142 | when some live row matches, the result is a row of the table, no primary is created, at most one row is appended, and one is appended exactly when the re-read cluster lacks the exact pair and the request brings a new value; the appended row is a secondary linked to the returned row |
| Identity.IdentifyOnlyRelinksPrimaries | src/services/contactService.ts:81-139 | no call changes any row's email or phone number; each existing row either stays as it was or is a primary demoted to a secondary of the returned row; the table grows by at most one row and the counter moves with it |
| Identity.MergedOnlyDemotesPrimaries | src/services/contactService.ts:77-93 | the merge step keeps the table's length and changes a row only by demoting a primary to a secondary of the survivor |
| Identity.DemotionTouchesOnlyOtherPrimaries | src/services/contactService.ts:77-91 | demoting towards the oldest related primary changes exactly the other related primaries |
| Identity.IdentifyMergesPrimaries | src/services/contactService.ts:77-93 | when the related rows hold several primaries, the oldest of them is returned; every other related primary becomes a secondary linked to it; no other row changes, so secondaries of demoted primaries keep their old `linkedId`; among the related rows exactly the oldest primary remains primary |
| Identity.OneFieldNeverMatchesExactPair | src/services/contactService.ts:111-113 | a request missing a field never finds an exact-pair row, because `undefined === null` is false |
| Identity.RecordNewInformation | src/services/contactService.ts:95-129 | re-reading the cluster and the conditional `create` leave exactly the table `Record` describes and keep the table valid |
| Identity.ResolveMatched | src/services/contactService.ts:49-129 | choosing the primary, merging and recording leave exactly the table `Resolve` describes and return its primary |
| Identity.IdentifyContact | src/services/contactService.ts:5-143 | the method returns the result of `Identify` on the table before the call, leaves the table and the counter `Identify` describes, and keeps the table valid |
| Consolidation.AddIfTruthy | src/services/contactService.ts:165-170 | no contract of its own: `if (v) set.add(v)` on an insertion-ordered set; characterised by `Consolidation.Collect` |
| Consolidation.Consolidate | src/services/contactService.ts:145-180 | no contract of its own: the answer as a function of the table; characterised by `Consolidation.ConsolidateFailsOnlyForUnknownId`, `Consolidation.ConsolidatedEmails`, `Consolidation.ConsolidatedPhoneNumbers` and `Consolidation.ConsolidatedSecondaryIds` |
| Consolidation.Collect | src/services/contactService.ts:161-172 | feeding values to a `Set` and taking `Array.from` yields no duplicates and exactly the non-empty values fed, with the first value first when it is truthy |
| Consolidation.CollectExtends | src/services/contactService.ts:168-177 | feeding more values only appends, so values are listed in the order they are first seen |
| Consolidation.GetConsolidatedContact | src/services/contactService.ts:145-180 | the method, which writes nothing, returns exactly `Consolidate` of the table |
| Consolidation.ConsolidateFailsOnlyForUnknownId | src/services/contactService.ts:146-152 | the call fails, with the not-found error, exactly when no row at all has the id, soft-deleted rows included; on success the reported id is the requested one |
| Consolidation.ConsolidatedEmails | src/services/contactService.ts:161-176 | the emails have no duplicates and no empty strings; they are exactly the truthy emails of the contact and of the live rows linked to it; the contact's own email comes first when it is truthy |
| Consolidation.ConsolidatedPhoneNumbers | src/services/contactService.ts:162-177 | the phone numbers have no duplicates and no empty strings; they are exactly the truthy phone numbers of the contact and of the live rows linked to it; the contact's own number comes first when it is truthy |
| Consolidation.ConsolidatedSecondaryIds | src/services/contactService.ts:154-178 | the secondary ids are exactly the ids of the live rows whose `linkedId` is the contact's id, each once, in ascending fetch order |
| Response.RecordCoversRequest | src/services/contactService.ts:95-129 | after the re-read and the conditional insert, every truthy requested email and phone number sits on a live row that is the returned contact or is linked to it |
| Response.ClusterEmailInView | src/services/contactService.ts:145-176 | on a valid table holding the contact's row, the truthy email of any live row that is the contact or is linked to it is among the view's emails |
| Response.ClusterPhoneNumberInView | src/services/contactService.ts:145-177 | the same for phone numbers |
| Response.CoverageGivesView | src/services/contactService.ts:145-180 | when the returned contact's row is in a valid table and its cluster carries every truthy requested value, its view exists and lists them |
| Response.ResolveKeepsSurvivorRow | src/services/contactService.ts:49-142 | once something matched, the call returns the survivor, keeps a row with the survivor's id and keeps the table valid |
| Response.ResolveShowsRequest | src/services/contactService.ts:49-142 | once something matched, the returned contact's view lists every truthy requested email and phone number |
| Response.IdentifyThenConsolidateShowsRequest | src/controllers/identifyController.ts:14-15 | on any valid table, when `identifyContact` succeeds, `getConsolidatedContact` of the contact it returns succeeds too and lists every truthy email and phone number the request carried |
| Idempotence.CreatedAtIsUnique | src/services/contactService.ts:53 | on a valid table the creation time the sort compares determines the row |
| Idempotence.DemoteAllKeepsCoherent | src/services/contactService.ts:81-91 | the demotion loop keeps every row primary exactly when it is linked to nothing |
| Idempotence.IdentifyKeepsCoherent | src/services/contactService.ts:5-143 | every call keeps every row primary exactly when it is linked to nothing |
| Idempotence.ResolveKeepsCoherent | src/services/contactService.ts:77-129 | the same for the merge-and-record step |
| Idempotence.RelatedPrimaryIsMatched | src/services/contactService.ts:61-74 | on a valid coherent table a primary gathered by the second lookup is the candidate or a matched row |
| Idempotence.SurvivorIsCandidate | src/services/contactService.ts:49-93 | on a valid coherent table the oldest related primary is the candidate, so the call always returns the candidate |
| Idempotence.MergeIsNoOpForLonePrimary | src/services/contactService.ts:77-93 | when every related primary has the survivor's id, the merge leaves the table unchanged |
| Idempotence.RecordWritesNothingWhenCarried | src/services/contactService.ts:110-129 | when the survivor's cluster holds a row with the request's email and phone number, nothing is inserted |
| Idempotence.RecordIsIdempotent | src/services/contactService.ts:95-129 | re-running the re-read and conditional insert on its own output inserts nothing more |
| Idempotence.MatchedPrimaryIsRelated | src/services/contactService.ts:61-74 | on a coherent table a matched primary and the candidate are both among the related primaries |
| Idempotence.MergedPrimaryIsCandidate | src/services/contactService.ts:77-93 | after the merge, a row that shares an identifier with the request and is still primary is the candidate |
| Idempotence.OnlyCandidateStaysMatchedPrimary | src/services/contactService.ts:49-129 | after a call that matched, the candidate is the only primary sharing an identifier with the request |
| Idempotence.SecondaryCandidateStaysOldestMatch | src/services/contactService.ts:54-58 | when the fallback picked a secondary, no row sharing an identifier with the request is older than it after the call |
| Idempotence.ReachedRowNotOlder | src/services/contactService.ts:54-58 | the same, row by row |
| Idempotence.ResolveKeepsColumns | src/services/contactService.ts:77-129 | the merge-and-record step keeps the email, phone number, creation and deletion time of every existing row |
| Idempotence.LastRowIsNewest | src/services/contactService.ts:119-126 | a row appended by the call is newer than the candidate |
| Idempotence.CandidateRowKept | src/services/contactService.ts:77-142 | after a call that matched, the candidate's row is still in the table, unchanged, and is the result |
| Idempotence.SettlesOnKeptRow | src/services/contactService.ts:49-93 | when a row is the only primary the request reaches, and no reached row is older than it when it is a secondary, the call picks it and merges nothing |
| Idempotence.ResolveThenRepeat | src/services/contactService.ts:49-142 | after a call that matched, the identical call returns the same contact and writes nothing |
| Idempotence.CreateThenRepeat | src/services/contactService.ts:131-142 | after a call that created a primary, the identical call returns that primary and writes nothing |
| Idempotence.IdentifyIsIdempotent | src/services/contactService.ts:5-143 | on a valid coherent table, repeating a request returns the same result and leaves the table and the id counter unchanged |
| Scenarios.MergeOfTwoPrimaries | src/services/contactService.ts:77-129 | with primaries 1 (email `a`) and 2 (phone `555`), request (`a`, `555`) demotes 2 under 1, inserts nothing and returns 1, whose view is `[a]`, `[555]`, `[2]` |
| Scenarios.MergeRequestRepeated | src/services/contactService.ts:111-129 | repeating that request leaves the table unchanged and returns 1 again |
| Scenarios.RequestMatchingOnlyASecondary | src/services/contactService.ts:55-57 | a request that matches only a secondary returns that secondary and links the new row to it |
| Scenarios.DemotedPrimaryKeepsItsSecondaries | src/services/contactService.ts:81-91 | a secondary of a demoted primary keeps its `linkedId` and is missing from the survivor's consolidated view |
| Scenarios.WalkThroughFromEmptyTable | src/services/contactService.ts:131-139 | from an empty table, an email alone and then a phone alone create two primaries, and the request with both merges them |

## Left out

- The HTTP controller is modelled only as the chaining of the two calls at lines 14-15 (module `Response`). Its status codes and JSON mapping are transport plumbing, and its own both-absent check repeats the service's. The route registration and the server start-up are not part of this model.
- The Prisma client is not part of this model. It is replaced by the in-memory `ContactStore`, whose queries follow the `where` clauses the service issues.
- `async`/`await` and concurrent requests racing on the merge are not modelled. Each call is atomic.
- Wall-clock dates are not modelled. `createdAt` is the autoincrement counter, and the implicit `updatedAt` refresh is not modelled.
- `deletedAt` is never written by the service, so the model only reads it.
- Store.Select: `findMany` without `orderBy` (lines 61-74, 96-104, 154-159) is taken to return rows in insertion order. The database promises no order there, so the order of `secondaryContactIds` and of the consolidated emails and phones is proved only for that order.
- Store.ContactStore.Update requires that the id exists. Prisma throws on a missing id, and the service only passes ids it has just read, so that throw is not modelled.
- The unused `allLinkedIds` computation (lines 41-46) is not modelled. It is dead code.
- The `secondaryContacts` array (lines 37, 106-108, 127) is not modelled. It is built but never read or returned.
- A request field sent as JSON `null` rather than omitted is not modelled. Request fields are either absent (`undefined`) or strings.
- Ids are unbounded naturals, not JavaScript doubles.
- The misspelled response key `primaryContatctId` is kept only as a comment on `ConsolidatedContact`. The field is named `primaryContactId`.
- Idempotence.IdentifyIsIdempotent assumes the table is `Coherent`. `ValidTable` alone admits a primary that carries a `linkedId`, which the service never writes. On such a table a repeated request can insert twice, because the second call falls back to a secondary. Every call keeps `Coherent` (`Idempotence.IdentifyKeepsCoherent`), and the empty table satisfies it. `ContactStore.Valid` does not include it, because Prisma's `create` and `update` accept any link columns.
- Contacts.Oldest does not fix which element a tie in `createdAt` selects. JavaScript's sort is stable, but ties cannot occur on a valid table.
