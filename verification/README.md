# Favourite quotes store: a Dafny model

This project models the favourites part of a market-quotes iOS client. It has three parts:

- **`DiskStorageManager`**, the favourites store. It keeps the user's favourite quotes in memory and writes the whole list to `quotesArray.json` in the documents directory after every add, and after every remove that finds an entry with the argument's name; a remove with no such entry does nothing. When the write succeeds, it sends one notification to its observers. When the write fails, it rolls the list back to what it was before the call and rethrows the error.
- **`WeakPointerArray`**, the observer registry. It is a weak hash table of observers.
- **`QuoteTableViewCell.ViewModel`**, which maps a quote to the strings, colour and favourite image shown in a table row.

Each store operation is a pure function of the store state, the codec and the device. An add or a remove returns a `Step`: the store and device afterwards, the `Outcome` (`Pass`, or `Fail` with the thrown `DiskStorageManager.Error`), and the events sent. A refresh and the subscription calls return the new `Store`. Notification is a method that returns the log of deliveries. Three things stay abstract:

- **JSON encoder and decoder.** These are the function values of a `Codec`. `None` stands for the error that `try?` swallowed.
- **File manager.** This is a `FileSystem` value: whether a documents directory exists, the files in it, and two fault flags (reading throws, writing throws).
- **Observers.** These are identified by an `ObserverId`. An observer released by its owner is dropped from the registry.

Modules:

- `Wrappers`: `Option`, `Result` and `Outcome`.
- `QuoteModel`: the `Quote` entity, with every field optional as decoded from the feed.
- `WeakPointers`: the registry. `WeakPointers.Contains` is the registry's `contains` (WeakPointerArray.swift lines 30-32), a plain membership test. `WeakPointers.Count` is its `count` (lines 12-14).
- `FileStore`: reading and saving, and which error each failure becomes.
- `DiskStorage`: the store.
- `StorageProperties`: properties that span several calls, including a trace semantics `Run` over arbitrary operation sequences.
- `QuoteCell`: the row view model.

Behaviour of the code worth knowing:

- `contains(quote:)` compares whole quotes with `==`, not by name. The model takes that equality to be field-by-field (see "## Left out"). As a result, after `addQuote(q)` the quote `q` itself is found only when it was already in the list or already carried `isFavourite == true` (`StorageProperties.ContainsAfterAdd`).
- `addQuote` never checks for an existing entry with the same name. `removeQuote` deletes the first entry whose name matches. So adding a name twice and removing it once deletes the older entry (`StorageProperties.AddThenRemoveWithSameName`). Names are not assumed unique.
- Names are `String?`, and an absent name matches an absent name, as `nil == nil` does in Swift.
- `isFavourite` stays `Bool?`. Absent reads as `false` only in the view model.
- The registry is a hash table, so notification order is unspecified. The model promises every held observer exactly one delivery and no particular order.
- Which event is sent is decided by `previousQuoteCount > quotes.count`, not by which operation ran. `DiskStorage.UpdateQuotes` states the rule in general. Under the invariant `previousQuoteCount == |quotes|` (`DiskStorage.Valid`), an add always sends `DidUpdate` and a remove always sends `DidRemove`.
- A removal event carries the quote passed to `removeQuote`, not the stored entry. It also carries the row the entry had.
- If encoding fails, the error is `writingFailed` even when the documents directory is missing, because encoding happens before the save is attempted.

## Model

| member | source | states |
|---|---|---|
| QuoteModel.Favourited | Technical-test/Technical-test/Managers/StorageManager/DiskStorageManager.swift:33-34 | the appended copy has `isFavourite == Some(true)` and differs from the argument in no other field |
| FileStore.Read | Technical-test/Technical-test/Managers/StorageManager/DiskStorageManager.swift:112-125 | succeeds exactly when the directory exists, the file exists and reading does not fault, and then returns the file's bytes; a missing directory is `invalidDirectory`, a missing file `fileNotExists`; reading never reports `writingFailed` |
| FileStore.Save | Technical-test/Technical-test/Managers/StorageManager/DiskStorageManager.swift:100-110 | succeeds exactly when the directory exists and writing does not fault, and then changes only the named file, to `data`; a failed save leaves the device untouched (atomic write) and reports `invalidDirectory` iff there is no directory, otherwise `writingFailed` |
| FileStore.SaveThenRead | Technical-test/Technical-test/Managers/StorageManager/DiskStorageManager.swift:100-125 | bytes written by a successful save are what the next read returns, unless reading faults |
| FileStore.SaveKeepsOtherFiles | Technical-test/Technical-test/Managers/StorageManager/DiskStorageManager.swift:100-110 | a save, successful or not, does not change what reading any other file gives |
| DiskStorage.FirstIndexByName | Technical-test/Technical-test/Managers/StorageManager/DiskStorageManager.swift:46 | returns the index of the first entry whose name equals the given name, or nothing exactly when no entry has that name |
| DiskStorage.Delete | Technical-test/Technical-test/Managers/StorageManager/DiskStorageManager.swift:51 | removing at `i` shortens the list by one, keeps every other entry in its relative order, and removes exactly one occurrence of the entry at `i` (multiset) |
| DiskStorage.ContainsQuote | Technical-test/Technical-test/Managers/StorageManager/DiskStorageManager.swift:60-65 | the linear scan answers true exactly when an entry equal to the quote (all fields) is in the list |
| DiskStorage.Refresh | Technical-test/Technical-test/Managers/StorageManager/DiskStorageManager.swift:24-29 | a read failure or a decode failure leaves the store as it was; when both succeed, the list becomes the decoded list and the committed count its length; observers are untouched and the count invariant is kept |
| DiskStorage.Init | Technical-test/Technical-test/Managers/StorageManager/DiskStorageManager.swift:15-29 | a new store satisfies the count invariant and has no observers; it holds exactly the decoded list when the file reads and decodes, and it is empty when the file or directory is missing or unreadable or the contents do not decode |
| DiskStorage.UpdateQuotes | Technical-test/Technical-test/Managers/StorageManager/DiskStorageManager.swift:72-84 | passes exactly when encoding succeeds and the save succeeds; an encoding failure throws `writingFailed`; once encoding succeeds, the result is exactly the save's own outcome, so `invalidDirectory` exactly when there is no directory; on failure nothing changes and no event is sent; on success the file holds the encoding, one event is sent, it is `DidRemove(removed, at)` exactly when the committed count exceeded the new length and `DidUpdate(new list)` otherwise, and the committed count becomes the new length |
| DiskStorage.AddQuote | Technical-test/Technical-test/Managers/StorageManager/DiskStorageManager.swift:31-43 | passes exactly when the extended list encodes and saves; on success the list is the old list plus the favourited copy at the end (no name check), the file holds its encoding, no other file changes, the directory and fault flags are untouched, exactly one event is sent, `DidRemove(nil, nil)` only if the committed count exceeded the new length and otherwise `DidUpdate` carrying the new list, so under the count invariant always the latter; on failure the store and device equal the pre-call snapshot, no event is sent, and the error is `invalidDirectory` exactly when the extended list encodes but there is no directory, and `writingFailed` exactly when encoding fails or the write faults |
| DiskStorage.RemoveQuote | Technical-test/Technical-test/Managers/StorageManager/DiskStorageManager.swift:45-58 | with no entry of the argument's name the call passes with no write, no event and no change; otherwise, with `i` the first matching index, it passes exactly when the list without entry `i` encodes and saves, then holds exactly that list, persists it without touching any other file, the directory or the fault flags, and sends one event, `DidUpdate(new list)` only if the committed count did not exceed the new length and otherwise `DidRemove(argument, i)`, so under the count invariant always the latter; on failure the store and device equal the snapshot, no event is sent, and the error is `invalidDirectory` exactly when the shortened list encodes but there is no directory, and `writingFailed` exactly when encoding fails or the write faults |
| DiskStorage.Subscribe | Technical-test/Technical-test/Managers/StorageManager/DiskStorageManager.swift:147-149 | the observer is held afterwards, membership of every other observer is unchanged, and the list is untouched |
| DiskStorage.Unsubscribe | Technical-test/Technical-test/Managers/StorageManager/DiskStorageManager.swift:151-153 | the observer is no longer held, membership of every other observer is unchanged, and the list is untouched |
| DiskStorage.Notify | Technical-test/Technical-test/Managers/StorageManager/DiskStorageManager.swift:134-140 | every observer held receives the event exactly once, nobody else receives anything, and there are as many deliveries as observers |
| WeakPointers.Empty | Technical-test/Technical-test/Utility/WeakPointerArray.swift:16 | a new registry holds nothing and counts zero |
| WeakPointers.Add | Technical-test/Technical-test/Utility/WeakPointerArray.swift:18-20 | the object is contained afterwards, every other object's membership is unchanged, and the count grows by one exactly when the object was not held |
| WeakPointers.Remove | Technical-test/Technical-test/Utility/WeakPointerArray.swift:22-24 | the object is not contained afterwards, every other object's membership is unchanged, and the count drops by one exactly when it was held |
| WeakPointers.RemoveAll | Technical-test/Technical-test/Utility/WeakPointerArray.swift:26-28 | the count is zero and no object is contained |
| WeakPointers.Count | Technical-test/Technical-test/Utility/WeakPointerArray.swift:12-14 | the count is zero exactly when no object is contained |
| WeakPointers.Enumerate | Technical-test/Technical-test/Utility/WeakPointerArray.swift:35-44 | iteration visits exactly the held objects, each once, with as many steps as the count, in no promised order |
| StorageProperties.Apply | Technical-test/Technical-test/Managers/StorageManager/DiskStorageManager.swift:24-58 | any single operation, whether it passes or throws, keeps `previousQuoteCount == |quotes|`; observer and device operations leave the list alone |
| StorageProperties.RunKeepsValid | Technical-test/Technical-test/Managers/StorageManager/DiskStorageManager.swift:24-84 | the count invariant survives every finite sequence of adds, removes, refreshes, subscriptions, releases and device changes |
| StorageProperties.ReachableStoresAreValid | Technical-test/Technical-test/Managers/StorageManager/DiskStorageManager.swift:15-29 | every store reachable from construction satisfies the count invariant |
| StorageProperties.AddThenRemoveRestores | Technical-test/Technical-test/Managers/StorageManager/DiskStorageManager.swift:31-58 | under the count invariant, after a successful add, when the name is new and the old list still encodes, removing a just-added quote returns the store to exactly its earlier state, persists the earlier list, and the events are one update then one removal at the last row |
| StorageProperties.AddThenRemoveWithSameName | Technical-test/Technical-test/Managers/StorageManager/DiskStorageManager.swift:31-58 | when the name is already present at first index `i` and both calls pass, add then remove deletes entry `i` and leaves the new favourited copy at the end, so the quote is still a favourite |
| StorageProperties.ContainsAfterAdd | Technical-test/Technical-test/Managers/StorageManager/DiskStorageManager.swift:31-65 | after a successful add the favourited copy is contained, and the argument itself is contained exactly when it was before or already carried the flag |
| StorageProperties.RefreshAfterCommitChangesNothing | Technical-test/Technical-test/Managers/StorageManager/DiskStorageManager.swift:24-84 | after a committed add or remove, reloading from the file gives back the store unchanged whenever the codec round-trips the list, including on a device whose reads fault: memory and disk agree |
| StorageProperties.AddedQuoteRendersAsFavourite | Technical-test/Technical-test/View/QuoteTableViewCell.swift:69-83 | the entry a successful add appends shows the "favorite" image and otherwise renders exactly like the argument |
| StorageProperties.AddRemoveScenario | Technical-test/Technical-test/Managers/StorageManager/DiskStorageManager.swift:19-58 | without a file the store starts empty; adding AAPL persists a one-element favourited list and reports it; removing by name "AAPL" persists the empty list and reports the argument at row 0 |
| QuoteCell.ColourOf | Technical-test/Technical-test/View/QuoteTableViewCell.swift:75-81 | red exactly for "red", green exactly for "green", black for every other value including none |
| QuoteCell.MakeViewModel | Technical-test/Technical-test/View/QuoteTableViewCell.swift:69-84 | the title is the name or empty; the description starts with the price (or empty) and, only for a present non-empty currency, continues with a space and the currency; the percentage is the readable change or empty; the colour follows `ColourOf`; the row is a favourite exactly when the flag is `Some(true)` |
| QuoteCell.ImageName | Technical-test/Technical-test/View/QuoteTableViewCell.swift:51 | the image is "favorite" exactly for a favourite row, "no-favorite" otherwise |
| QuoteCell.FavouriteFlagOnlyChangesImage | Technical-test/Technical-test/View/QuoteTableViewCell.swift:69-84 | changing a quote's favourite flag changes only the row's favourite field, and the image is "favorite" exactly when the flag is `Some(true)` |

## Left out

- DiskStorage.FirstIndexByName: names are compared code point by code point. Swift's `String ==` compares by canonical equivalence, so for example a stored name "Cafe" followed by a combining acute accent matches "Café" written with a precomposed é in Swift but not in the model. There, `RemoveQuote` does nothing where the app would remove the entry. Unicode normalisation is out of reach of `seq<char>`.
- DiskStorage.ContainsQuote: quotes are compared field by field with code-point equality on strings. This assumes `Quote`'s `==` is the synthesized one, because `Quote` itself is not part of this model. It also differs from Swift's canonical-equivalence `String ==` in the same way as `DiskStorage.FirstIndexByName`.

- JSON encoding and decoding are abstract partial functions. No JSON round trip is proved; `RefreshAfterCommitChangesNothing` takes the round trip of the committed list as a hypothesis.
- URL resolution, `FileManager` and the `.atomic` write option are reduced to the `FileSystem` value. Its fault flags stand for whatever the real device would throw. The atomic write is modelled as "a failed save leaves every file unchanged".
- The registry does not model when weak references are zeroed. An observer deallocated by its owner is the `ReleaseOp` step, which drops its id.
- `IndexPath` is reduced to its row. The section is always 0.
- The `rawValue` strings of `DiskStorageManager.Error` are left out. No code reads them.
- Observers calling back into the store during a notification are not modelled. A notification is a list of deliveries.
- The `catch let error as DiskStorageManager.Error` clauses are not modelled as a filter. Every error thrown on these paths has that type, so the rollback always runs.
- `NetworkManager.swift` is not part of this model. It is an HTTP fetch.
- The view controllers are not part of this model: UIKit layout, table-view plumbing and dispatch-queue hops.
- `StorageProtocols.swift` and `Market.swift` are not part of this model. They hold declarations only.
- Cell rendering (`UIColor`, `UIImage`, outlets) is not modelled. It becomes a colour tag and an image name.
