/** The favourites store (`DiskStorageManager`). The store keeps the list of
    favourite quotes in memory, writes the whole list to one file after every
    change, and tells its observers about each committed change. A failed
    write puts the list back as it was before the call.

    Every operation is a pure function from the store, the codec and the
    device to a `Step`: the store and device afterwards, what the call
    returned or threw, and the notifications it sent. */
module DiskStorage {
  import opened Wrappers
  import opened QuoteModel
  import opened FileStore
  import opened WeakPointers

  /** Name of the file that holds the favourites list. */
  const FileName: string := "quotesArray.json"

  /** The JSON encoder and decoder, as partial functions: `None` is the
      `try?` that swallowed an encoding or decoding error. */
  datatype Codec = Codec(
    encode: seq<Quote> -> Option<Data>,
    decode: Data -> Option<seq<Quote>>)

  /** The two `StorageManagerObserver` callbacks. `DidRemove` carries optional
      values because the add path passes none. */
  datatype Event =
    | DidUpdate(quotes: seq<Quote>)
    | DidRemove(quote: Option<Quote>, row: Option<nat>)

  datatype Store = Store(
    quotes: seq<Quote>,
    previousQuoteCount: int,
    observers: Registry)

  /** Outcome of one store operation. Every event in `events` goes to every
      observer held in `store.observers` (see `Notify`). */
  datatype Step = Step(
    store: Store,
    fs: FileSystem,
    result: Outcome<StorageError>,
    events: seq<Event>)

  /** The count of the last committed list matches the list in memory. */
  predicate Valid(s: Store) {
    s.previousQuoteCount == |s.quotes|
  }

  /** The favourites file holds the encoding of `quotes`. */
  predicate Persisted(codec: Codec, quotes: seq<Quote>, fs: FileSystem) {
    codec.encode(quotes).Some? && FileName in fs.files && fs.files[FileName] == codec.encode(quotes).value
  }

  /** Entry `i` is the first whose name equals `name` (an absent name equals
      an absent name, as `nil == nil` does). */
  predicate IsFirstNameMatch(qs: seq<Quote>, name: Option<string>, i: int) {
    && 0 <= i < |qs|
    && qs[i].name == name
    && forall j :: 0 <= j < i ==> qs[j].name != name
  }

  /** `firstIndex(where: { $0.name == quote.name })`. */
  function FirstIndexByName(qs: seq<Quote>, name: Option<string>): (r: Option<nat>)
    ensures r.Some? ==> IsFirstNameMatch(qs, name, r.value)
    ensures r.None? ==> forall i :: 0 <= i < |qs| ==> qs[i].name != name
  {
    if qs == [] then None
    else if qs[0].name == name then Some(0)
    else
      match FirstIndexByName(qs[1..], name)
      case None => None
      case Some(j) => Some(j + 1)
  }

  /** `remove(at:)`: every other entry keeps its relative order. */
  function Delete(qs: seq<Quote>, i: nat): (r: seq<Quote>)
    requires i < |qs|
    ensures |r| == |qs| - 1
    ensures forall j :: 0 <= j < i ==> r[j] == qs[j]
    ensures forall j :: i <= j < |r| ==> r[j] == qs[j + 1]
    ensures multiset(r) + multiset{qs[i]} == multiset(qs)
  {
    assert qs == qs[..i] + [qs[i]] + qs[i + 1..];
    qs[..i] + qs[i + 1..]
  }

  /** `contains(quote:)`: a linear scan comparing whole quotes with `==`. */
  function ContainsQuote(qs: seq<Quote>, q: Quote): (b: bool)
    ensures b <==> q in qs
  {
    |qs| > 0 && (qs[0] == q || ContainsQuote(qs[1..], q))
  }

  /** `refreshStorage()`: replace the list only when both reading the file
      and decoding it succeed; any failure is swallowed. */
  function Refresh(s: Store, codec: Codec, fs: FileSystem): (s': Store)
    ensures s'.observers == s.observers
    ensures Read(fs, FileName).Failure? ==> s' == s
    ensures Read(fs, FileName).Success? && codec.decode(Read(fs, FileName).value).None? ==> s' == s
    ensures Read(fs, FileName).Success? && codec.decode(Read(fs, FileName).value).Some? ==>
              s'.quotes == codec.decode(Read(fs, FileName).value).value && Valid(s')
    ensures Valid(s) ==> Valid(s')
  {
    match Read(fs, FileName)
    case Failure(_) => s
    case Success(data) =>
      match codec.decode(data)
      case None => s
      case Some(quotes) => s.(quotes := quotes, previousQuoteCount := |quotes|)
  }

  /** `init`: an empty store with no observers, then one refresh. A missing
      file or directory leaves the list empty. */
  function Init(codec: Codec, fs: FileSystem): (s: Store)
    ensures Valid(s)
    ensures s.observers == Empty()
    ensures Read(fs, FileName).Failure? ==> s.quotes == []
    ensures Read(fs, FileName).Success? && codec.decode(Read(fs, FileName).value).Some? ==>
              s.quotes == codec.decode(Read(fs, FileName).value).value
    ensures Read(fs, FileName).Success? && codec.decode(Read(fs, FileName).value).None? ==> s.quotes == []
  {
    Refresh(Store([], 0, Empty()), codec, fs)
  }

  /** `updateQuotes(_:removed:at:)`, called with `s.quotes` already holding the
      new list. Encode, save, and on success send exactly one event, chosen by
      comparing the last committed count with the new length. */
  function UpdateQuotes(s: Store, codec: Codec, fs: FileSystem, removed: Option<Quote>, at: Option<nat>): (r: Step)
    ensures r.store.quotes == s.quotes && r.store.observers == s.observers
    ensures r.result.Pass? <==> codec.encode(s.quotes).Some? && fs.documentDirectory && !fs.writeFault
    ensures codec.encode(s.quotes).None? ==> r.result == Fail(WritingFailed)
    ensures codec.encode(s.quotes).Some? ==> r.result == Save(fs, FileName, codec.encode(s.quotes).value).outcome
    ensures r.result.Fail? ==> r.store == s && r.fs == fs && r.events == []
    ensures r.result.Fail? ==> r.result.error in {WritingFailed, InvalidDirectory}
    ensures r.result.Pass? ==> Persisted(codec, s.quotes, r.fs) && Valid(r.store)
    ensures r.result.Pass? ==> r.fs.files - {FileName} == fs.files - {FileName}
    ensures r.fs.documentDirectory == fs.documentDirectory
    ensures r.fs.readFault == fs.readFault && r.fs.writeFault == fs.writeFault
    ensures r.result.Pass? ==> |r.events| == 1
    ensures r.result.Pass? ==> (r.events[0].DidRemove? <==> s.previousQuoteCount > |s.quotes|)
    ensures r.result.Pass? && r.events[0].DidRemove? ==> r.events[0] == DidRemove(removed, at)
    ensures r.result.Pass? && r.events[0].DidUpdate? ==> r.events[0] == DidUpdate(s.quotes)
  {
    match codec.encode(s.quotes)
    case None => Step(s, fs, Fail(WritingFailed), [])
    case Some(data) =>
      var saved := Save(fs, FileName, data);
      if saved.outcome.Fail? then Step(s, fs, saved.outcome, [])
      else
        var event := if s.previousQuoteCount > |s.quotes| then DidRemove(removed, at) else DidUpdate(s.quotes);
        Step(s.(previousQuoteCount := |s.quotes|), saved.fs, Pass, [event])
  }

  /** `addQuote(_:)`: append a favourited copy of `q` (no check for an entry
      with the same name), persist, and roll back if persisting throws. */
  function AddQuote(s: Store, codec: Codec, fs: FileSystem, q: Quote): (r: Step)
    ensures r.store.observers == s.observers
    ensures r.result.Pass? <==>
              codec.encode(s.quotes + [Favourited(q)]).Some? && fs.documentDirectory && !fs.writeFault
    ensures r.result.Pass? ==> r.store.quotes == s.quotes + [Favourited(q)]
    ensures r.result.Pass? ==> Persisted(codec, r.store.quotes, r.fs) && Valid(r.store)
    ensures r.result.Pass? ==> r.fs.files - {FileName} == fs.files - {FileName}
    ensures r.fs.documentDirectory == fs.documentDirectory
    ensures r.fs.readFault == fs.readFault && r.fs.writeFault == fs.writeFault
    ensures r.result.Fail? ==> r.store == s && r.fs == fs && r.events == []
    ensures r.result.Fail? ==> r.result.error in {WritingFailed, InvalidDirectory}
    ensures r.result == Fail(InvalidDirectory) <==>
              codec.encode(s.quotes + [Favourited(q)]).Some? && !fs.documentDirectory
    ensures r.result == Fail(WritingFailed) <==>
              codec.encode(s.quotes + [Favourited(q)]).None? || (fs.documentDirectory && fs.writeFault)
    ensures r.result.Pass? ==> |r.events| == 1
    ensures r.result.Pass? && r.events[0].DidUpdate? ==> r.events[0] == DidUpdate(r.store.quotes)
    ensures r.result.Pass? && Valid(s) ==> r.events == [DidUpdate(r.store.quotes)]
    ensures r.result.Pass? ==> (r.events[0].DidRemove? <==> s.previousQuoteCount > |s.quotes| + 1)
    ensures r.result.Pass? && r.events[0].DidRemove? ==> r.events[0] == DidRemove(None, None)
  {
    var appended := s.(quotes := s.quotes + [Favourited(q)]);
    var u := UpdateQuotes(appended, codec, fs, None, None);
    if u.result.Fail? then u.(store := u.store.(quotes := s.quotes)) else u
  }

  /** `removeQuote(_:)`: find the first entry whose name equals `q`'s name;
      without one the call does nothing at all. Otherwise delete that entry,
      persist, and roll back if persisting throws. The removal event carries
      the argument `q`, not the stored entry. */
  function RemoveQuote(s: Store, codec: Codec, fs: FileSystem, q: Quote): (r: Step)
    ensures r.store.observers == s.observers
    ensures (forall k :: 0 <= k < |s.quotes| ==> s.quotes[k].name != q.name) ==> r == Step(s, fs, Pass, [])
    ensures r.fs.documentDirectory == fs.documentDirectory
    ensures r.fs.readFault == fs.readFault && r.fs.writeFault == fs.writeFault
    ensures r.result.Fail? ==> r.store == s && r.fs == fs && r.events == []
    ensures r.result.Fail? ==> r.result.error in {WritingFailed, InvalidDirectory}
    ensures |r.events| <= 1
    ensures forall i {:trigger IsFirstNameMatch(s.quotes, q.name, i)} :: IsFirstNameMatch(s.quotes, q.name, i) ==>
              && (r.result.Pass? <==> codec.encode(Delete(s.quotes, i)).Some? && fs.documentDirectory && !fs.writeFault)
              && (r.result == Fail(InvalidDirectory) <==>
                    codec.encode(Delete(s.quotes, i)).Some? && !fs.documentDirectory)
              && (r.result == Fail(WritingFailed) <==>
                    codec.encode(Delete(s.quotes, i)).None? || (fs.documentDirectory && fs.writeFault))
              && (r.result.Pass? ==> r.store.quotes == Delete(s.quotes, i))
              && (r.result.Pass? ==> Persisted(codec, r.store.quotes, r.fs) && Valid(r.store))
              && (r.result.Pass? ==> r.fs.files - {FileName} == fs.files - {FileName})
              && (r.result.Pass? ==> |r.events| == 1)
              && (r.result.Pass? ==> (r.events[0].DidRemove? <==> s.previousQuoteCount > |s.quotes| - 1))
              && (r.result.Pass? && r.events[0].DidUpdate? ==> r.events[0] == DidUpdate(r.store.quotes))
              && (r.result.Pass? && r.events[0].DidRemove? ==> r.events[0] == DidRemove(Some(q), Some(i)))
              && (r.result.Pass? && Valid(s) ==> r.events == [DidRemove(Some(q), Some(i))])
  {
    match FirstIndexByName(s.quotes, q.name)
    case None => Step(s, fs, Pass, [])
    case Some(i) =>
      var shrunk := s.(quotes := Delete(s.quotes, i));
      var u := UpdateQuotes(shrunk, codec, fs, Some(q), Some(i));
      if u.result.Fail? then u.(store := u.store.(quotes := s.quotes)) else u
  }

  /** `subscribeForUpdates(observer:)`. */
  function Subscribe(s: Store, o: ObserverId): (s': Store)
    ensures s'.quotes == s.quotes && s'.previousQuoteCount == s.previousQuoteCount
    ensures Contains(s'.observers, o)
    ensures forall x :: x != o ==> (Contains(s'.observers, x) <==> Contains(s.observers, x))
  {
    s.(observers := Add(s.observers, o))
  }

  /** `unsubscribeFromUpdates(observer:)`. */
  function Unsubscribe(s: Store, o: ObserverId): (s': Store)
    ensures s'.quotes == s.quotes && s'.previousQuoteCount == s.previousQuoteCount
    ensures !Contains(s'.observers, o)
    ensures forall x :: x != o ==> (Contains(s'.observers, x) <==> Contains(s.observers, x))
  {
    s.(observers := Remove(s.observers, o))
  }

  /** One callback to one observer. */
  datatype Delivery = Delivery(observer: ObserverId, event: Event)

  /** `notifyAboutAdding` / `notifyAboutRemoving`: `observers.forEach`, so
      every observer held at the time gets the event exactly once and no one
      else gets it. */
  method Notify(observers: Registry, e: Event) returns (log: seq<Delivery>)
    ensures forall d :: d in log ==> d.event == e && Contains(observers, d.observer)
    ensures forall o :: Contains(observers, o) ==> Delivery(o, e) in log
    ensures Distinct(log)
    ensures |log| == Count(observers)
  {
    var order := Enumerate(observers);
    log := [];
    var k := 0;
    while k < |order|
      invariant k <= |order|
      invariant |log| == k
      invariant forall j :: 0 <= j < k ==> log[j] == Delivery(order[j], e)
    {
      log := log + [Delivery(order[k], e)];
      k := k + 1;
    }
    forall o | Contains(observers, o)
      ensures Delivery(o, e) in log
    {
      var j :| 0 <= j < |order| && order[j] == o;
      assert log[j] == Delivery(o, e);
    }
  }
}
