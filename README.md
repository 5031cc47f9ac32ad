# Bookmark store

A model of the in-memory bookmark database of go-bookmarks
(`bookmarks/lib.go`). The canonical state is an ordered slice of shared
bookmark records. Three indices are derived from it: by name, by URL and by
tag (a tag leads to the list of entries carrying it). The operations are:

- `Add`: refuses a taken name, otherwise appends and updates all three indices.
- `Find`: a linear scan by name that counts a view of the hit.
- `FindURL`: a URL-index read.
- `FindbyTags`: concatenates the lists of the requested tags and counts a view per returned occurrence.
- `DeleteBookmark`: swap-with-head removal from the slice and from every index.
- `rebuildIndex`: recomputes the indices from the slice.
- `Size`, `Dump`, `NewBookmark` and `Bookmark.Update`.

Modules:

- `Entries`: `Bookmark` is a class. Name, URL, tags and creation time never change after construction. `views` and `accessed` are mutable and shared by the slice and every index, as Go pointers are. `Record` is the value copy `Dump` returns.
- `Indices`: the indices as functions of the slice.
  - `IndexBy` (last writer wins) and `TagIndexOf` are folds that follow `rebuildIndex` step by step.
  - `Occurrences` is the per-tag reading of the tag index.
  - `Consistent` is the store invariant: distinct names, and every index agreeing with the slice. Tag lists agree as multisets, because deletion reorders them.
- `Queries`: `TagLookup` is what `FindbyTags` returns. `Hits` counts how often an entry is returned.
- `Deletion`: removal as the source writes it and as it is evidently meant.
  - The source's tag sweep shares a backing array between the tag's list and the loop's copy. `SweepFrom` makes that sharing explicit, including the index-out-of-range panic.
  - `StepFixed` and `RepointUrl` are the intended behaviour.
- `Bookmarks`: the `Store` class. Its fields are `entries`, `nameIndex`, `urlIndex` and `tagIndex`, and its methods are loops proved against the functions above.
- `Scenario`: short sessions against a fresh store.

The model follows the code in these points:

- `Find` and `FindbyTags` increase `views` only and never touch `accessed` (lib.go:44, 56).
- `Add` of a taken name goes through `Find` and so counts a view of the existing entry (lib.go:122). In the session add `blog` / add `blog` again / look up tag `tech`, the entry therefore has two views after the tag lookup (`Scenario.BlogSession`).
- `Load` in web.go calls `updateIndex`, which lib.go does not define. The rebuild modelled is `rebuildIndex` (lib.go:66).
- The indices are package globals shared by every `db` value. The model holds them as fields of the one store.

## Model

| member | source | states |
|---|---|---|
| Entries.Bookmark.constructor | bookmarks/lib.go:10-18 | the record holds exactly the given name, URL, tags, times and view count |
| Entries.Bookmark.Update | bookmarks/lib.go:134-138 | always succeeds; views go up by one and accessed becomes the given time |
| Entries.NewBookmark | bookmarks/lib.go:140-152 | a fresh record with the given name, URL and tags, created now, never accessed, zero views |
| Indices.FirstIndex | bookmarks/lib.go:41-49 | the first position carrying the name, or -1 exactly when no entry carries it |
| Indices.LastIndex | bookmarks/lib.go:70-72 | the last position carrying the key, or -1 exactly when none does |
| Indices.IndexBy | bookmarks/lib.go:67-72 | the name or URL index the rebuild loop computes: each entry, in slice order, overwrites the slot of its key |
| Indices.AppendTags | bookmarks/lib.go:73-75 | the tag index after an entry is appended to the list of each of its tags in order, once per occurrence (also the tag loop of `Add`) |
| Indices.TagIndexOf | bookmarks/lib.go:69-75 | the tag index the rebuild loop computes: `AppendTags` for each entry in slice order, from an empty map |
| Indices.IndexByIsLastWriter | bookmarks/lib.go:66-72 | the rebuilt name/URL index holds exactly the slice's keys, each leading to the last entry carrying it |
| Indices.AppendTagsSpec | bookmarks/lib.go:73-75 | appending an entry for its tags adds each tag as a key and extends its list by the entry once per occurrence of the tag |
| Indices.TagIndexOfSpec | bookmarks/lib.go:66-77 | the rebuilt tag index has exactly the slice's tags as keys, each listing the entries carrying it in slice order, once per occurrence |
| Indices.OccurrencesCount | bookmarks/lib.go:73-75 | an entry is listed under a tag (stored count) × (times it carries the tag) times |
| Indices.OccurrencesMember | bookmarks/lib.go:73-75 | an entry is listed under a tag iff it is stored and carries the tag |
| Indices.OccurrencesEmpty | bookmarks/lib.go:73-75 | a tag's list is empty iff no stored entry carries the tag |
| Indices.OccurrencesPermutation | bookmarks/lib.go:84-85 | reordering the slice leaves each tag's list the same multiset |
| Indices.RebuildIsConsistent | bookmarks/lib.go:66-77 | with distinct names, the rebuilt indices satisfy the store invariant |
| Indices.DistinctNamesCount | bookmarks/lib.go:117-119 | with distinct names, the slice length equals the number of names |
| Indices.AddExtendsRebuild | bookmarks/lib.go:125-130 | the in-place updates of `Add` give exactly the indices a rebuild of the extended slice gives |
| Indices.SnocKeyConsistent | bookmarks/lib.go:129-130 | setting the new entry's key keeps a name/URL index in agreement with the extended slice |
| Indices.SnocTagConsistent | bookmarks/lib.go:126-128 | appending the new entry to its tags' lists keeps the tag index in agreement with the extended slice |
| Indices.AddKeepsConsistent | bookmarks/lib.go:121-132 | adding an entry under a new name keeps the store invariant |
| Queries.TagLookup | bookmarks/lib.go:51-62 | the `FindbyTags` result: the lists of the requested tags concatenated in request order, a tag without a list giving nothing |
| Queries.TagLookupContains | bookmarks/lib.go:53-59 | every member of a requested tag's list is in the result |
| Queries.HitsPositive | bookmarks/lib.go:53-59 | an entry has a matching pair iff it carries some requested tag |
| Queries.TagLookupCount | bookmarks/lib.go:51-62 | an entry is returned (stored count) × (matching requested/carried tag pairs) times, duplicates kept |
| Queries.TagLookupMembers | bookmarks/lib.go:51-62 | an entry is returned iff it is stored and carries a requested tag |
| Queries.TagLookupSelects | bookmarks/lib.go:51-62 | the same for every entry at once |
| Deletion.RemoveAt | bookmarks/lib.go:84-85 | swap-with-head removal shortens the slice by one and removes exactly one copy of the target, as a multiset |
| Deletion.RemoveAtSource | bookmarks/lib.go:84-85 | each remaining position holds the entry of a distinct old position other than the removed one |
| Deletion.RemoveAtNames | bookmarks/lib.go:84-86 | with distinct names, the removed name is gone, the rest stay distinct, and the names are the old ones minus the removed name |
| Deletion.SweepFrom | bookmarks/lib.go:94-98 | the sweep over one tag's list with the list and the loop's copy sharing one array: a match overwrites the window's position with the window's head and drops the head, and a match past the shortened window panics; the array keeps its length |
| Deletion.StepAsWritten | bookmarks/lib.go:89-99 | one pass of the tag loop: a list of length one loses its key, otherwise the sweep runs and the tag's list becomes the window; the flag records a panic |
| Deletion.RemoveTagsAsWritten | bookmarks/lib.go:88-100 | the tag loop over the removed entry's tags, pass by pass, stopping at the first panic |
| Deletion.StepFixed | bookmarks/lib.go:89-99 | the intended pass: the list loses its first member with the name (swap with head, drop head), the key going when that was its only member; a list without such a member is unchanged |
| Deletion.RemoveTagsFixed | bookmarks/lib.go:88-100 | the intended tag loop: `StepFixed` for each tag of the removed entry in order |
| Deletion.RepointUrl | bookmarks/lib.go:87 | the intended URL update: the key goes only when no remaining entry carries the URL, and otherwise leads to the last one that does |
| Deletion.SweepSkip | bookmarks/lib.go:94-95 | non-matching members leave the sweep's state alone |
| Deletion.SweepRemovesSingleMatch | bookmarks/lib.go:94-98 | with exactly one matching member, the sweep does not panic and the list loses exactly that member |
| Deletion.SweepPanicsOnRepeat | bookmarks/lib.go:94-97 | a list holding the deleted entry twice makes the sweep index past the shortened list |
| Deletion.StepFixedKeepsPending | bookmarks/lib.go:89-99 | removing the entry from one tag's list (the key going when the list had one member) keeps the index agreeing with the remaining entries for the tags still to process |
| Deletion.RemoveTagsFixedConsistent | bookmarks/lib.go:88-100 | after all the removed entry's tags are processed, the tag index agrees with the remaining entries |
| Deletion.StepAsWrittenMatchesFixed | bookmarks/lib.go:89-99 | for a tag the entry carries once, the source's step equals the intended single removal and does not panic |
| Deletion.AsWrittenMatchesFixed | bookmarks/lib.go:88-100 | for pairwise distinct tags, the source's loop equals the intended removal and never panics |
| Deletion.DeleteNamesConsistent | bookmarks/lib.go:86 | dropping the name key keeps the name index in agreement with the shortened slice |
| Deletion.DeleteUrlsConsistent | bookmarks/lib.go:87 | the intended URL update keeps the URL index in agreement with the shortened slice |
| Deletion.UrlDeleteAsWritten | bookmarks/lib.go:87 | dropping the URL key keeps the URL index in agreement iff no other entry shares the URL |
| Deletion.DeleteKeepsConsistent | bookmarks/lib.go:79-102 | the intended removal keeps the store invariant |
| Deletion.DeleteAsWrittenKeepsConsistent | bookmarks/lib.go:79-102 | the source's removal keeps the store invariant and does not panic when the entry's tags are distinct and its URL unshared |
| Deletion.RepeatedTagPanics | bookmarks/lib.go:94-97 | an entry tagged `[t, t]` is listed twice; the source's removal panics; the intended removal empties the index |
| Deletion.SharedUrlLost | bookmarks/lib.go:87 | with two entries sharing a URL, the source's removal of the first leaves the second stored but unindexed; the intended update leads the URL to the second |
| Bookmarks.Store.constructor | bookmarks/lib.go:30-32 | an empty slice and empty indices, which satisfy the invariant and equal a rebuild |
| Bookmarks.Store.Size | bookmarks/lib.go:117-119 | under the invariant, the slice length equals the number of indexed names |
| Bookmarks.Store.FindURL | bookmarks/lib.go:34-39 | non-null iff some stored entry has the URL, and then a stored entry with that URL; after a rebuild, the last such entry |
| Bookmarks.Store.Find | bookmarks/lib.go:41-49 | the first position with the name, or (-1, null); only the hit gains a view, accessed never changes; under the invariant it agrees with the name index |
| Bookmarks.Store.FoundInNameIndex | bookmarks/lib.go:41-49 | under the invariant, a stored name leads through the name index to the entry carrying it |
| Bookmarks.Store.FindbyTags | bookmarks/lib.go:51-62 | returns the requested tags' lists concatenated in request order; each entry gains one view per returned occurrence; nothing else changes; under the invariant, exactly the stored entries carrying a requested tag are returned |
| Bookmarks.Store.VisitAll | bookmarks/lib.go:55-58 | appends one tag's list and counts a view per member |
| Bookmarks.Store.RebuildIndex | bookmarks/lib.go:66-77 | the slice is unchanged and the indices equal the rebuild functions; the invariant holds when names are distinct; a second rebuild changes nothing |
| Bookmarks.Store.AppendTagLoop | bookmarks/lib.go:73-75 | appends the entry to the list of each of its tags in order, nothing else changes |
| Bookmarks.ViewedOnly | bookmarks/lib.go:44 | the lookup counted one view of the found entry and changed no other view count or access time |
| Bookmarks.Store.Add | bookmarks/lib.go:121-132 | a taken name gives AlreadyExists with slice and indices unchanged but a view counted on the existing entry; otherwise Ok, the entry appended, name and URL keys set, tag lists extended; the invariant and rebuild equality are kept |
| Bookmarks.Store.DeleteBookmark | bookmarks/lib.go:79-102 | an absent name gives NoSuchRecord and changes nothing; otherwise a view is counted, the slice loses the entry by swap-with-head, the name and URL keys go, the tag loop runs as written (IndexOutOfRange at its panic); with distinct tags and an unshared URL it succeeds and keeps the invariant |
| Bookmarks.Store.Unlink | bookmarks/lib.go:84-100 | the removal after the lookup, as written |
| Bookmarks.Store.SweepTag | bookmarks/lib.go:89-99 | one pass of the tag loop, with the shared backing array, equals `StepAsWritten` |
| Bookmarks.Store.DeleteBookmarkFixed | bookmarks/lib.go:79-102 | the intended removal: always Ok for a present name, the URL key re-pointed to a remaining entry with that URL, each tag list losing one copy; keeps the invariant |
| Bookmarks.Store.UnlinkFixed | bookmarks/lib.go:84-100 | the intended removal after the lookup |
| Bookmarks.Store.LastWithUrl | bookmarks/lib.go:87 | the last position of a remaining entry carrying the URL, or -1 |
| Bookmarks.Store.RemoveFirstFromTag | bookmarks/lib.go:89-99 | one tag's list loses its first member with the name, the key going with the list's last member |
| Bookmarks.Store.Dump | bookmarks/lib.go:104-115 | value copies of the entries in slice order, as many as `Size` |
| Scenario.AddBlog | bookmarks/lib.go:121-132 | adding to a fresh store gives size 1 |
| Scenario.AddBlogAgain | bookmarks/lib.go:121-124 | a second `blog` is refused, size stays 1, the stored entry gains a view |
| Scenario.LookupTech | bookmarks/lib.go:51-62 | tag `tech` yields exactly the stored entry and counts one view |
| Scenario.DeleteBlog | bookmarks/lib.go:79-102 | the source's removal of `blog` (distinct tags, unshared URL) succeeds and leaves a consistent empty store |
| Scenario.LookupGone | bookmarks/lib.go:41-62 | in the empty store neither the name `blog` nor the tag `tech` finds anything |
| Scenario.BlogSession | bookmarks/lib.go:41-62 | the whole session; the entry has two views after the tag lookup |
| Scenario.TagTwice | bookmarks/lib.go:51-62 | two lookups of a tag carried once count exactly two views |

## Left out

- Entries.Bookmark.Update: `Views` is an `int32` in Go; the model counts views as unbounded integers, so wrap-around after 2^31 - 1 views is not modelled (the same holds for `Find` and `FindbyTags`).
- Time: `time.Now()` in `NewBookmark` and `Update` becomes a parameter.
- Printing: the `fmt.Println` output of `Dump` and `Bookmark.String` is output, not state.
- Errors: Go errors become `Status` values carrying the name; the message texts are not modelled.
- Bookmarks.Store.DeleteBookmark: at a panic, the store is returned as it stood at the panic, with `IndexOutOfRange`. The unwinding of the goroutine and any recovery by `net/http` are not modelled.
- Sharing between tag lists: each list is a value. The one sharing that changes the outcome, between a list and the loop's copy during deletion, is modelled explicitly. Later appends write past the shortened window and are not visible through any other list.
- Several `db` values sharing the global indices: `NewDB` returns a new slice but reuses the package-level indices. The model gives the one store its own indices.
- Save, Load, the HTTP handlers (bookmarks/web.go), main.go and the CLI under cli/: I/O, concurrency and glue over external libraries. They are not part of this model.

## Findings

| source | as written | input that shows it | evidently intended | confidence | as-written member | corrected member |
|---|---|---|---|---|---|---|
| bookmarks/lib.go:94-97 | the tag loop keeps sweeping after removing the entry, over a copy that shares the shortened list's array | an entry with tags `[t, t]`: its list is `[e, e]`, and the second match indexes position 1 of a list of length 1 (index out of range) | remove the entry from each tag's list once, stopping after the first match | not executed | Deletion.RepeatedTagPanics | Deletion.DeleteKeepsConsistent |
| bookmarks/lib.go:87 | the URL key is deleted outright | two entries `a`, `c` with the same URL: deleting `a` leaves `c` stored but `FindURL` returns nil | keep the key while another entry carries the URL, leading to it | not executed | Deletion.SharedUrlLost | Deletion.DeleteUrlsConsistent |
