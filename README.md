# you-sub data layer in Dafny

A model of the data layer of the you-sub browser extension, which sorts a user's
channel subscriptions into user-defined groups. The extension keeps two values in
`chrome.storage.local`: `subscriptions`, an object from channel id to
`{channelId, name, url, icon, group}`, and `groups`, a list of labels. The default
label is `"Ungrouped"`.

The model covers four parts:

- **Scrape normaliser** (`contentScript.js`, module `ContentScript`):
  - `extractChannelIdFromUrl` is modelled as a regular-expression search. The result is
    the greedy `[^/?&]+` run after the leftmost `/channel/` match, else after the
    leftmost `/user/` match, else the URL itself.
  - The record building in `scrapeSubscriptions` works over channel elements whose
    name, link and image parts may each be absent.
- **Reconciler** (`syncWithStorage`, module `Reconciler` and `Popup.LocalStore`). The
  store is rebuilt from the scraped list. A non-empty stored group is kept; anything
  else becomes `"Ungrouped"`. Channels that are no longer scraped are dropped.
- **Group and assignment edits** (`updateSubscriptionGroup`, `addNewGroup`,
  `deleteGroup`).
- **View projection** (the first part of `loadAndDisplayGroups`, module `ViewModel`).
  Subscriptions are bucketed by group. The labels are sorted, each bucket is sorted by
  name, and each listed label with members becomes one section.

Storage is the class `Popup.LocalStore` with two `Option` fields, one per stored value.
Each method is one read-modify-write cycle. Each method applies the same default for an
absent value as the source: `[defaultGroup]` in most places, `[]` in `deleteGroup`. Each
method's new state is given by a function in `Reconciler` or `ViewModel`. The lemmas
next to those functions state what the source promises about them.

Helper modules:

- `Text`: JavaScript's `trim`, and lexicographic order as the model of `localeCompare`.
- `Sorting`: a stable insertion sort (stability is `Sorting.SortByIsStable`), standing in for `Array.prototype.sort`.
- `Wrappers`: `Option` and `Result`.

Behaviour of the code worth noting:

- A stored group survives a sync only if it is non-empty. This is the `|| defaultGroup`
  at popup.js:195.
- `deleteGroup` has no guard against deleting `"Ungrouped"`. The lemma
  `Popup.DeletingDefaultHidesItsMembers` states the consequence.
- Subscriptions whose group is not in the list are not shown. The walk at
  popup.js:42-44 visits only listed labels.
- An empty group name is refused silently and a duplicate name raises an alert.
  `AddError` keeps the two cases apart.

## Model

| member | source | states |
|---|---|---|
| Text.Trim | contentScript.js:25 | the result has no white space at either end, and removing only leading and trailing white space from the input gives it |
| Text.TrimIdempotent | popup.js:215 | trimming a trimmed name changes nothing |
| Text.LexLeqTotal | popup.js:36 | any two strings are comparable under the order used for sorting |
| Text.LexLeqTransitive | popup.js:36-38 | the sort order is transitive |
| Text.LexLeqAntisymmetric | popup.js:36 | two strings each at most the other are equal |
| Sorting.Insert | popup.js:36-38 | inserting into a sorted sequence keeps it sorted and adds exactly the one element |
| Sorting.InsertIndex | popup.js:36-38 | the insertion point: every element before it has a key at most the new one's, the element at it has a greater key |
| Sorting.InsertPlacesAfterEqualKeys | popup.js:36-38 | Insert puts the element at InsertIndex, after every element with a key at most its own and before every greater one, leaving the rest in place |
| Sorting.WithKey | popup.js:36-38 | the elements with a given key, no more than the input holds; WithKeyCounts says exactly which |
| Sorting.WithKeyCounts | popup.js:36-38 | every element with the key is kept as often as it occurs in the input, every other element is dropped |
| Sorting.InsertKeepsKeyOrder | popup.js:36-38 | inserting appends the element to the elements of its own key and leaves every other key's elements as they were |
| Sorting.SortByIsStable | popup.js:36-38 | for every key, the sort keeps the elements with that key in their input order |
| Sorting.SortBy | popup.js:36-38 | the result is sorted by the key and is a permutation of the input |
| Sorting.SortedStringsUnique | popup.js:36 | sorting the group list has exactly one possible outcome |
| ContentScript.FirstMatch | contentScript.js:3 | the result is the leftmost position where the marker followed by an id character occurs; None means there is no such position |
| ContentScript.IdRun | contentScript.js:3 | the greedy run of non-`/`,`?`,`&` characters: all id characters up to the first non-id character or the end |
| ContentScript.Capture | contentScript.js:3-6 | None exactly when the pattern matches nowhere; otherwise the maximal id run after the leftmost match |
| ContentScript.ExtractChannelId | contentScript.js:2-8 | `/channel/` match wins; `/user/` is tried only when `/channel/` matches nowhere; with neither the URL itself is returned |
| ContentScript.LeftmostMatchUnique | contentScript.js:3 | the leftmost match position is unique |
| ContentScript.MaximalRunUnique | contentScript.js:3 | the maximal run is unique, so the contract of ExtractChannelId determines its result |
| ContentScript.ExtractedIdIsCleanSubstring | contentScript.js:3-6 | when a pattern matches, the id is non-empty, holds no `/`, `?` or `&`, and occurs in the URL |
| ContentScript.ExtractChannelExample | contentScript.js:3-4 | `/channel/UC1?x` gives `UC1` |
| ContentScript.ExtractUserExample | contentScript.js:5-6 | `/user/xyz` gives `xyz` |
| ContentScript.ExtractNeitherExample | contentScript.js:7 | `@handle` gives itself |
| ContentScript.NormaliseIcon | contentScript.js:20-21 | a `//` source gets `https:` prefixed, any other source is unchanged, a missing one is empty; the result never starts with `//` |
| ContentScript.NormaliseIconIdempotent | contentScript.js:20-21 | normalising twice equals normalising once |
| ContentScript.CompleteIndicesIncreasing | contentScript.js:14-19 | the positions of complete elements are in bounds, increasing, and each is complete |
| ContentScript.CompleteIndicesCover | contentScript.js:14-19 | every complete element's position is listed |
| ContentScript.ToRecord | contentScript.js:20-28 | the pushed record keeps the link as url, its id is extracted from that url, its name is the trimmed text content, its icon is the normalised image source and never protocol-relative |
| ContentScript.Records | contentScript.js:14-30 | the forEach/push result: no more records than elements, each with an extracted id, trimmed name and non-protocol-relative icon; RecordsAt and RecordsFollowCompleteElements pin down which records |
| ContentScript.RecordsAt | contentScript.js:19-29 | record k is the k-th complete element converted: channel id extracted from its link, trimmed name, the link, the normalised icon |
| ContentScript.RecordsFollowCompleteElements | contentScript.js:14-30 | one record per complete element, in document order, no more records than elements |
| ContentScript.ScrapeSubscriptions | contentScript.js:14-32 | the pushed records are exactly Records of the elements; every record's id is extracted from its own url, its name is trimmed, its icon is not protocol-relative |
| Reconciler.KeptGroup | popup.js:195 | a non-empty stored group is kept, otherwise the default; never empty |
| Reconciler.Rebuilt | popup.js:193-196 | `{ ...sub, group: ... }`: the scraped fields are kept and the group is KeptGroup: the stored group when it is non-empty, otherwise the default |
| Reconciler.Merged | popup.js:189-197 | the key set is exactly the scraped channel ids; each record is stored under its own id with the kept group |
| Reconciler.MergedTakesLastRecord | popup.js:192-197 | a scraped record not overridden by a later one with the same id is stored with its name, url and icon and the kept group |
| Reconciler.MergedComesFromFresh | popup.js:192-197 | every stored record is some scraped record rebuilt |
| Reconciler.MergedDependsOnKeptGroups | popup.js:192-197 | the old store matters only through the kept groups of the scraped ids |
| Reconciler.MergedIdempotent | popup.js:185-200 | syncing twice with the same list gives the same store as syncing once |
| Reconciler.MergedAtUniqueId | popup.js:192-197 | with distinct ids every scraped record is stored under its id as Rebuilt, its fields with the kept group |
| Reconciler.MergedOrderIndependent | popup.js:192-197 | with distinct ids the scrape order does not affect the store |
| Reconciler.MergedKeepsConsistency | popup.js:188-200 | if every stored group was listed and the default is listed, every group after sync is listed |
| Reconciler.WithGroup | popup.js:119-120 | only the named record's group changes; keys, other records and other fields are untouched |
| Reconciler.WithGroupConsistency | popup.js:116-124 | a move keeps the store consistent exactly when the target label is listed (the source does not check) |
| Reconciler.AddGroup | popup.js:215-223 | empty trimmed name and duplicate are refused (both directions); otherwise the trimmed name is appended and a duplicate-free list stays duplicate-free |
| Reconciler.AddTwiceIsDuplicate | popup.js:219-229 | adding the same name again is refused as a duplicate and the name occurs exactly once |
| Reconciler.MovedOut | popup.js:241-243 | only the group field can change; a record outside the deleted group is unchanged; a member of the deleted group moves to the default label |
| Reconciler.Reassigned | popup.js:240-244 | members of the deleted group move to the default label, all other records are unchanged, keys are kept |
| Reconciler.Without | popup.js:247 | the deleted label is gone, every other label keeps its number of occurrences |
| Reconciler.WithoutIsSubsequence | popup.js:247 | the remaining labels keep their relative order |
| Reconciler.WithoutKeepsNoDuplicates | popup.js:247 | a duplicate-free list stays duplicate-free |
| Reconciler.DeleteKeepsConsistency | popup.js:234-249 | deleting a non-default label keeps every group listed and the default listed |
| ViewModel.Bucket | popup.js:29-33 | `grouped[g]`: only records of group g, at most one per visited key; BucketSound, BucketComplete and BucketSize give its members and their number |
| ViewModel.Sections | popup.js:42-44 | no more sections than labels, each for a walked label and non-empty; SectionsAreBuckets, SectionsSorted, SectionsCover and SectionsDistinct give the rest |
| ViewModel.View | popup.js:24-44 | every section is for a listed group and non-empty, no more sections than labels; ViewShape, ViewShowsListedSubscription, ViewHidesUnlistedGroup, ViewSectionSize and ViewDistinct give its meaning |
| ViewModel.BucketByGroup | popup.js:29-33 | a bucket exists exactly for groups with members and holds them in visiting order |
| ViewModel.SortBuckets | popup.js:37-39 | every bucket is replaced by its sort by name, no bucket added or removed |
| ViewModel.WalkGroups | popup.js:42-44 | the walk emits the sections of the labels in order, skipping labels without members |
| ViewModel.GroupedView | popup.js:24-44 | the projection equals View of the store, key order and labels |
| ViewModel.BucketSound | popup.js:29-33 | a bucket holds only stored records of its group |
| ViewModel.BucketComplete | popup.js:29-33 | every visited record of a group is in its bucket |
| ViewModel.BucketSize | popup.js:29-33 | a bucket has one entry per visited channel of its group |
| ViewModel.SectionsAreBuckets | popup.js:42-44 | each section is a walked label with a non-empty bucket, sorted by name |
| ViewModel.SectionsSorted | popup.js:36-44 | walking sorted labels gives sections in label order |
| ViewModel.SectionsCover | popup.js:42-44 | every walked label with members gets a section |
| ViewModel.ViewShape | popup.js:24-44 | sections are in label order, each is a listed label, non-empty, sorted by name, holding only stored records of its group |
| ViewModel.ViewShowsListedSubscription | popup.js:24-44 | a subscription whose group is listed appears in its own group's section |
| ViewModel.ViewHidesUnlistedGroup | popup.js:42-44 | a subscription whose group is not listed is not shown |
| ViewModel.ViewSectionSize | popup.js:29-44 | each section has as many rows as its group has subscriptions |
| ViewModel.SectionsDistinct | popup.js:42-44 | walking a duplicate-free label list gives each label at most one section |
| ViewModel.ViewDistinct | popup.js:36-44 | for a duplicate-free label list the view shows each label at most once |
| Popup.LocalStore.SyncWithStorage | popup.js:185-202 | the store becomes Merged of the scraped list and the old store (absent as empty); groups are written back, absent as the default list |
| Popup.LocalStore.UpdateSubscriptionGroup | popup.js:116-126 | an unknown id (or absent store) changes nothing; otherwise WithGroup; groups untouched |
| Popup.LocalStore.AddNewGroup | popup.js:212-231 | on success the groups become AddGroup's list (absent read as the default list); on refusal nothing is written and the reason is returned |
| Popup.LocalStore.DeleteGroup | popup.js:234-255 | both values are written: Reassigned store and Without list (absent list read as empty) |
| Popup.LocalStore.LoadGroupedView | popup.js:19-44 | for an enumeration of the stored keys, the projection of the stored values, absent subscriptions as empty and absent groups as the default list |
| Popup.SyncKeepsWellFormed | popup.js:185-200 | a sync keeps the store well formed (duplicate-free labels with the default, every group listed) |
| Popup.AddKeepsWellFormed | popup.js:219-223 | adding a group keeps the store well formed |
| Popup.DeleteKeepsWellFormed | popup.js:234-249 | deleting a non-default label keeps the store well formed |
| Popup.SyncedStoreIsFullyShown | popup.js:185-200 | after syncing a well-formed store every stored subscription is shown in its group |
| Popup.DeletingDefaultHidesItsMembers | popup.js:240-247 | deleting the default label leaves its members assigned to it and hides all of them |

## Left out

- DOM rendering (popup.js:47-110): element creation, dropdowns and click handlers. Only the ordered, grouped projection they consume is modelled.
- DOM querying (contentScript.js:12-17): channel elements are given as values whose name, link and image parts may each be absent.
- Tab navigation and load waiting (`openAndSync`, `waitForTabLoad`): these are browser I/O and event listeners.
- Messaging (`fetchAndSyncWithTab`, the `onMessage` listener): this is browser plumbing. The popup sends `FETCH_SUBSCRIPTIONS` while the content script answers only `SCRAPE_SUBSCRIPTIONS`. That mismatch lies outside this model.
- Asynchronous `chrome.storage` access, `alert`, clearing the input box, and lost updates between overlapping callbacks. Each operation is modelled as one atomic cycle.
- Sorting.SortBy: compares in code-point lexicographic order, not with the locale-aware rules of `localeCompare`.
- ViewModel.GroupedView: sorts sequence values rather than sorting the arrays in place.
- Popup.LocalStore.LoadGroupedView: the order in which `for..in` enumerates the stored object's keys is a parameter, required to list every key exactly once. It decides only the order of members with equal names.
- JavaScript object quirks: keys such as `__proto__` or `constructor` that collide with the object prototype, and records with missing fields.
- Strings are sequences of Dafny characters, with no distinction between UTF-16 code units and code points.
