/** Properties of the favourites store that relate several calls: the count
    invariant over any sequence of operations, add followed by remove,
    consistency between memory and disk, and how committed quotes render. */
module StorageProperties {
  import opened Wrappers
  import opened QuoteModel
  import opened FileStore
  import opened WeakPointers
  import opened DiskStorage
  import opened QuoteCell

  /** Everything that can happen to a running store. `Release` is an observer
      deallocated by its owner; `DeviceChange` is the file system changing
      behind the store's back (file deleted, directory lost, faults). */
  datatype Op =
    | AddOp(q: Quote)
    | RemoveOp(q: Quote)
    | RefreshOp
    | SubscribeOp(o: ObserverId)
    | UnsubscribeOp(o: ObserverId)
    | ReleaseOp(o: ObserverId)
    | DeviceChange(fs: FileSystem)

  datatype World = World(store: Store, fs: FileSystem)

  /** One operation, whatever it returns or throws. */
  function Apply(w: World, codec: Codec, op: Op): (w': World)
    ensures Valid(w.store) ==> Valid(w'.store)
    ensures !op.RefreshOp? && !op.AddOp? && !op.RemoveOp? ==> w'.store.quotes == w.store.quotes
  {
    match op
    case AddOp(q) =>
      var r := AddQuote(w.store, codec, w.fs, q);
      World(r.store, r.fs)
    case RemoveOp(q) =>
      var r := RemoveQuote(w.store, codec, w.fs, q);
      World(r.store, r.fs)
    case RefreshOp => World(Refresh(w.store, codec, w.fs), w.fs)
    case SubscribeOp(o) => World(Subscribe(w.store, o), w.fs)
    case UnsubscribeOp(o) => World(Unsubscribe(w.store, o), w.fs)
    case ReleaseOp(o) => World(w.store.(observers := Remove(w.store.observers, o)), w.fs)
    case DeviceChange(fs) => World(w.store, fs)
  }

  function Run(w: World, codec: Codec, ops: seq<Op>): World
    decreases |ops|
  {
    if ops == [] then w else Run(Apply(w, codec, ops[0]), codec, ops[1..])
  }

  /** The count invariant survives any sequence of operations, successful or
      not. */
  lemma {:induction false} RunKeepsValid(w: World, codec: Codec, ops: seq<Op>)
    requires Valid(w.store)
    ensures Valid(Run(w, codec, ops).store)
    decreases |ops|
  {
    if ops != [] {
      RunKeepsValid(Apply(w, codec, ops[0]), codec, ops[1..]);
    }
  }

  /** Every store reachable from construction satisfies the count invariant. */
  lemma ReachableStoresAreValid(codec: Codec, fs: FileSystem, ops: seq<Op>)
    ensures Valid(Run(World(Init(codec, fs), fs), codec, ops).store)
  {
    RunKeepsValid(World(Init(codec, fs), fs), codec, ops);
  }

  /** Adding a quote whose name is not yet in the list and then removing it
      restores the store exactly, with one update and then one removal event
      at the last row. */
  lemma AddThenRemoveRestores(s: Store, codec: Codec, fs: FileSystem, q: Quote)
    requires Valid(s)
    requires forall k :: 0 <= k < |s.quotes| ==> s.quotes[k].name != q.name
    requires AddQuote(s, codec, fs, q).result.Pass?
    requires codec.encode(s.quotes).Some?
    ensures var a := AddQuote(s, codec, fs, q);
            var r := RemoveQuote(a.store, codec, a.fs, q);
            && a.events == [DidUpdate(s.quotes + [Favourited(q)])]
            && r.result.Pass?
            && r.store == s
            && r.events == [DidRemove(Some(q), Some(|s.quotes|))]
            && Persisted(codec, s.quotes, r.fs)
  {
    var a := AddQuote(s, codec, fs, q);
    var n := |s.quotes|;
    assert IsFirstNameMatch(a.store.quotes, q.name, n);
    assert Delete(a.store.quotes, n) == s.quotes;
  }

  /** Because add does not look for an entry with the same name, adding a
      quote whose name is already present and then removing it deletes the
      OLDER entry and keeps the new favourited copy at the end. */
  lemma AddThenRemoveWithSameName(s: Store, codec: Codec, fs: FileSystem, q: Quote, i: nat)
    requires IsFirstNameMatch(s.quotes, q.name, i)
    requires AddQuote(s, codec, fs, q).result.Pass?
    requires var a := AddQuote(s, codec, fs, q);
             RemoveQuote(a.store, codec, a.fs, q).result.Pass?
    ensures var a := AddQuote(s, codec, fs, q);
            var r := RemoveQuote(a.store, codec, a.fs, q);
            && r.store.quotes == Delete(s.quotes, i) + [Favourited(q)]
            && ContainsQuote(r.store.quotes, Favourited(q))
  {
    var a := AddQuote(s, codec, fs, q);
    assert IsFirstNameMatch(a.store.quotes, q.name, i);
    var l := Delete(s.quotes, i) + [Favourited(q)];
    assert Delete(a.store.quotes, i) == l;
    assert l[|l| - 1] == Favourited(q);
  }

  /** `contains` compares whole quotes, flag included: after a successful add
      the favourited copy is found, and `q` itself is found only if it was
      already there or already carried the flag. */
  lemma ContainsAfterAdd(s: Store, codec: Codec, fs: FileSystem, q: Quote)
    requires AddQuote(s, codec, fs, q).result.Pass?
    ensures ContainsQuote(AddQuote(s, codec, fs, q).store.quotes, Favourited(q))
    ensures ContainsQuote(AddQuote(s, codec, fs, q).store.quotes, q) <==>
              ContainsQuote(s.quotes, q) || q.isFavourite == Some(true)
  {
  }

  /** After any committed add or remove, refreshing leaves the store as it
      is, provided the codec round-trips that list: either the file reads
      back as the list in memory, or reading faults and nothing is replaced. */
  lemma RefreshAfterCommitChangesNothing(s: Store, codec: Codec, fs: FileSystem, q: Quote, isAdd: bool)
    requires var r := if isAdd then AddQuote(s, codec, fs, q) else RemoveQuote(s, codec, fs, q);
             && r.result.Pass?
             && r.store.quotes != s.quotes
             && codec.decode(codec.encode(r.store.quotes).value) == Some(r.store.quotes)
    ensures var r := if isAdd then AddQuote(s, codec, fs, q) else RemoveQuote(s, codec, fs, q);
            Refresh(r.store, codec, r.fs) == r.store
  {
  }

  /** The quote that a successful add appends renders exactly like the
      argument, except that its button shows the favourite image. */
  lemma AddedQuoteRendersAsFavourite(s: Store, codec: Codec, fs: FileSystem, q: Quote)
    requires AddQuote(s, codec, fs, q).result.Pass?
    ensures var l := AddQuote(s, codec, fs, q).store.quotes;
            && |l| > 0
            && ImageName(MakeViewModel(l[|l| - 1])) == "favorite"
            && MakeViewModel(l[|l| - 1]).(isFavourite := false) == MakeViewModel(q).(isFavourite := false)
  {
  }

  /** A store built over a device without the favourites file starts empty,
      adding one quote persists a one-element list and reports it, and
      removing by the same name persists the empty list and reports row 0. */
  lemma AddRemoveScenario(codec: Codec, fs: FileSystem, aapl: Quote, byName: Quote)
    requires FileName !in fs.files
    requires fs.documentDirectory && !fs.writeFault
    requires aapl.name == Some("AAPL") && aapl.isFavourite == Some(false)
    requires byName.name == Some("AAPL")
    requires codec.encode([Favourited(aapl)]).Some? && codec.encode([]).Some?
    ensures var s := Init(codec, fs);
            var a := AddQuote(s, codec, fs, aapl);
            var r := RemoveQuote(a.store, codec, a.fs, byName);
            && s.quotes == []
            && a.result.Pass?
            && a.store.quotes == [aapl.(isFavourite := Some(true))]
            && a.events == [DidUpdate([aapl.(isFavourite := Some(true))])]
            && r.result.Pass?
            && r.store.quotes == []
            && r.events == [DidRemove(Some(byName), Some(0))]
            && Persisted(codec, [], r.fs)
  {
    var s := Init(codec, fs);
    var a := AddQuote(s, codec, fs, aapl);
    assert s.quotes + [Favourited(aapl)] == [Favourited(aapl)];
    assert IsFirstNameMatch(a.store.quotes, byName.name, 0);
    assert Delete(a.store.quotes, 0) == [];
  }
}
