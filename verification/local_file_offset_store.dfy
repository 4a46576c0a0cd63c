/** The consumer-side offset store that keeps a `MessageQueue -> offset`
    table in memory and snapshots it to a local file with a `.bak` sibling.

    The files themselves are abstract: an `OffsetFile` is what reading and
    deserializing one of them yields. Concurrency (`ConcurrentHashMap`,
    `AtomicLong`) is modelled sequentially, so `putIfAbsent` always succeeds
    on an absent key.
 */
module LocalFileOffsetStore {
  import opened Wrappers
  import opened MessageQueues
  import JavaText

  /** Where `readOffset` looks. */
  datatype ReadOffsetType = ReadFromMemory | ReadFromStore | MemoryFirstThenStore

  type OffsetTable = map<MessageQueue, int>

  /** The outcome of reading and deserializing one offsets file. */
  datatype OffsetFile =
    | NoContent                          // missing, unreadable or empty
    | Malformed                          // the JSON parser threw
    | Decoded(table: Option<OffsetTable>) // `None`: the wrapper or its table is null

  /** `MQClientException` thrown when the `.bak` file does not deserialize. */
  datatype ClientError = LoadJsonError

  /** The store: the in-memory table and the two files it reads back from. */
  datatype OffsetStore = OffsetStore(offsetTable: OffsetTable, file: OffsetFile, bakFile: OffsetFile)

  /** The tagged form of `readOffset`'s result; `ToLong` maps it back. */
  datatype OffsetRead = Found(offset: int) | NotFound | ReadError {
    /** The `long` the Java method returns: -1 for anything but a hit. */
    function ToLong(): (r: int)
      ensures Found? ==> r == offset
      ensures !Found? ==> r == -1
    {
      if Found? then offset else -1
    }
  }

  /** `readLocalOffsetBak`: nothing to read gives null, a parse failure throws. */
  function ReadLocalOffsetBak(bak: OffsetFile): (r: Result<Option<OffsetTable>, ClientError>)
    ensures r.Failure? <==> bak.Malformed?
    ensures r == Success(None) <==> bak.NoContent? || bak == Decoded(None)
    ensures bak.Decoded? ==> r == Success(bak.table)
  {
    match bak
    case NoContent => Success(None)
    case Malformed => Failure(LoadJsonError)
    case Decoded(t) => Success(t)
  }

  /** `readLocalOffset`: the primary file wins when it deserializes; an empty,
      missing or unparsable primary falls back to the `.bak` file. */
  function ReadLocalOffset(store: OffsetStore): (r: Result<Option<OffsetTable>, ClientError>)
    ensures store.file.Decoded? ==> r == Success(store.file.table)
    ensures !store.file.Decoded? ==> r == ReadLocalOffsetBak(store.bakFile)
    ensures r.Failure? ==> !store.file.Decoded? && store.bakFile.Malformed?
  {
    match store.file
    case Decoded(t) => Success(t)
    case _ => ReadLocalOffsetBak(store.bakFile)
  }

  /** `load`: copy the snapshot's entries into memory, snapshot values winning. */
  function Load(store: OffsetStore): (r: Result<OffsetStore, ClientError>)
    ensures r.Failure? <==> ReadLocalOffset(store).Failure?
    ensures r.Success? ==> r.value.file == store.file && r.value.bakFile == store.bakFile
    ensures r.Success? && ReadLocalOffset(store).value.Some? ==>
      var t := ReadLocalOffset(store).value.value;
      && r.value.offsetTable.Keys == store.offsetTable.Keys + t.Keys
      && (forall q :: q in t ==> r.value.offsetTable[q] == t[q])
      && (forall q :: q in store.offsetTable && q !in t ==> r.value.offsetTable[q] == store.offsetTable[q])
    ensures r.Success? && ReadLocalOffset(store).value.None? ==> r.value == store
  {
    match ReadLocalOffset(store)
    case Failure(e) => Failure(e)
    case Success(None) => Success(store)
    case Success(Some(t)) => Success(store.(offsetTable := store.offsetTable + t))
  }

  /** `updateOffset(mq, offset, increaseOnly)`. A null queue is ignored; an
      absent queue gets exactly `offset`; an existing one is overwritten, or,
      with `increaseOnly`, updated by `compareAndIncreaseOnly`, which is not
      part of this model and is passed in as `increase(old, offset)`. */
  function UpdateOffset(table: OffsetTable, mq: Option<MessageQueue>, offset: int, increaseOnly: bool,
                        increase: (int, int) -> int): (r: OffsetTable)
    ensures mq.None? ==> r == table
    ensures mq.Some? ==> r.Keys == table.Keys + {mq.value}
    ensures mq.Some? && (mq.value !in table || !increaseOnly) ==> r[mq.value] == offset
    ensures forall q :: q in table && Some(q) != mq ==> r[q] == table[q]
  {
    match mq
    case None => table
    case Some(q) =>
      if q !in table then table[q := offset]
      else if increaseOnly then table[q := increase(table[q], offset)]
      else table[q := offset]
  }

  /** `readOffset(mq, type)`: the offset read, and the store afterwards (a hit
      in the file is copied into memory). */
  datatype ReadOutcome = ReadOutcome(read: OffsetRead, store: OffsetStore)

  /** The `READ_FROM_STORE` branch. */
  function ReadFromFile(store: OffsetStore, q: MessageQueue, increase: (int, int) -> int): (r: ReadOutcome)
    ensures ReadLocalOffset(store).Failure? ==> r == ReadOutcome(ReadError, store)
    ensures r.read.Found? <==>
      ReadLocalOffset(store).Success? && ReadLocalOffset(store).value.Some? && q in ReadLocalOffset(store).value.value
    ensures r.read.Found? ==>
      && r.read.offset == ReadLocalOffset(store).value.value[q]
      && r.store == store.(offsetTable := store.offsetTable[q := r.read.offset])
    ensures !r.read.Found? ==> r.store == store
  {
    match ReadLocalOffset(store)
    case Failure(_) => ReadOutcome(ReadError, store)
    case Success(None) => ReadOutcome(NotFound, store)
    case Success(Some(t)) =>
      if q in t then
        ReadOutcome(Found(t[q]), store.(offsetTable := UpdateOffset(store.offsetTable, Some(q), t[q], false, increase)))
      else ReadOutcome(NotFound, store)
  }

  /** `readOffset`, with the `switch` fall-through of `MEMORY_FIRST_THEN_STORE`
      into `READ_FROM_STORE`. */
  function ReadOffset(store: OffsetStore, mq: Option<MessageQueue>, readType: ReadOffsetType,
                      increase: (int, int) -> int): (r: ReadOutcome)
    ensures mq.None? ==> r == ReadOutcome(NotFound, store)
    ensures mq.Some? && readType == ReadFromMemory ==>
      r.store == store && (r.read.Found? <==> mq.value in store.offsetTable)
    ensures mq.Some? && readType != ReadFromStore && mq.value in store.offsetTable ==>
      r == ReadOutcome(Found(store.offsetTable[mq.value]), store)
    ensures mq.Some? && (readType == ReadFromStore || (readType == MemoryFirstThenStore && mq.value !in store.offsetTable)) ==>
      r == ReadFromFile(store, mq.value, increase)
    ensures r.read.ReadError? ==> r.store == store
  {
    match mq
    case None => ReadOutcome(NotFound, store)
    case Some(q) =>
      match readType
      case ReadFromMemory =>
        if q in store.offsetTable then ReadOutcome(Found(store.offsetTable[q]), store)
        else ReadOutcome(NotFound, store)
      case MemoryFirstThenStore =>
        if q in store.offsetTable then ReadOutcome(Found(store.offsetTable[q]), store)
        else ReadFromFile(store, q, increase)
      case ReadFromStore => ReadFromFile(store, q, increase)
  }

  /** Memory-first reads memory when it holds the queue and is otherwise a
      store read. */
  lemma MemoryFirstThenStoreFallsThrough(store: OffsetStore, q: MessageQueue, increase: (int, int) -> int)
    ensures ReadOffset(store, Some(q), MemoryFirstThenStore, increase) ==
      if q in store.offsetTable then ReadOffset(store, Some(q), ReadFromMemory, increase)
      else ReadOffset(store, Some(q), ReadFromStore, increase)
  {
  }

  /** A value written with `increaseOnly == false` is what a memory read returns next. */
  lemma UpdateThenReadFromMemory(store: OffsetStore, q: MessageQueue, offset: int, increase: (int, int) -> int)
    ensures var s := store.(offsetTable := UpdateOffset(store.offsetTable, Some(q), offset, false, increase));
      ReadOffset(s, Some(q), ReadFromMemory, increase).read == Found(offset)
  {
  }

  /** A hit in the file is cached: the next memory read returns the same offset. */
  lemma StoreHitIsCached(store: OffsetStore, q: MessageQueue, increase: (int, int) -> int)
    ensures var r := ReadOffset(store, Some(q), ReadFromStore, increase);
      r.read.Found? ==> ReadOffset(r.store, Some(q), ReadFromMemory, increase).read == r.read
  {
  }

  /** `cloneOffsetTable(topic)`: every entry for a blank topic, otherwise the
      entries of that topic, with their values. */
  function CloneOffsetTable(table: OffsetTable, topic: Option<string>): (r: map<MessageQueue, int>)
    ensures JavaText.IsBlank(topic) ==> r == table
    ensures !JavaText.IsBlank(topic) ==> r.Keys == set q | q in table && q.topic == topic.value
    ensures forall q :: q in r ==> q in table && r[q] == table[q]
  {
    if JavaText.IsBlank(topic) then table
    else map q | q in table && q.topic == topic.value :: table[q]
  }

  /** The clones of two different topics share no queue, and each is part of the whole table. */
  lemma ClonesOfDistinctTopicsAreDisjoint(table: OffsetTable, t1: string, t2: string)
    requires !JavaText.IsBlank(Some(t1)) && !JavaText.IsBlank(Some(t2)) && t1 != t2
    ensures CloneOffsetTable(table, Some(t1)).Keys !! CloneOffsetTable(table, Some(t2)).Keys
    ensures CloneOffsetTable(table, Some(t1)).Keys <= CloneOffsetTable(table, None).Keys
  {
  }

  /** `persistAll(mqs)`: the snapshot written to the file, `None` when nothing
      is written because the set is null or empty. */
  function PersistAll(table: OffsetTable, mqs: Option<set<MessageQueue>>): (r: Option<OffsetTable>)
    ensures r.None? <==> mqs.None? || |mqs.value| == 0
    ensures r.Some? ==> r.value.Keys == table.Keys * mqs.value
    ensures r.Some? ==> forall q :: q in r.value ==> r.value[q] == table[q]
  {
    if mqs.None? || |mqs.value| == 0 then None
    else Some(map q | q in table && q in mqs.value :: table[q])
  }

  /** Loading a file that holds a persisted snapshot into an empty table gives
      back exactly the persisted entries. */
  lemma PersistThenLoad(table: OffsetTable, mqs: set<MessageQueue>, bak: OffsetFile)
    requires |mqs| > 0
    ensures var snapshot := PersistAll(table, Some(mqs));
      var restored := Load(OffsetStore(map[], Decoded(snapshot), bak));
      && restored.Success?
      && restored.value.offsetTable.Keys == table.Keys * mqs
      && forall q :: q in restored.value.offsetTable ==> restored.value.offsetTable[q] == table[q]
  {
  }
}
