# Reflection dictionary trait, serialization map and event pipe

A Dafny model of three in-memory components of the engine's core.

- **Dictionary trait** (`Reflection`, `MapInstance`). This is a type-erased table of capabilities over any map-like type.
  - Seven capabilities are mandatory: length, begin, find, advance, stop, key and value.
  - Four are optional: insert-default, insert-copy, insert-move and erase.
  - `Iterator` owns an opaque cursor handle.
  - The concrete instance is modelled as a `Dict`: a `map` of entries plus the iteration order, a `seq` of keys.
  - A cursor handle is an address plus a position in that order.
  - The mandatory capabilities are the functions of `MapInstance` (`Length`, `BeginPos`, `FindPos`, `AdvancePos`), so they are those of the concrete type.
  - Each optional capability is an `Option` field holding the function the concrete type binds.
  - The trait keeps a ghost map `live` from handle address to the mutability the handle was opened with.
  - The bound `stop` (`DictionaryTrait.Stop`) requires its handle to be live with the same mutability. Releasing a handle twice, or through the wrong iterator kind, therefore cannot verify.
- **Serialization map** (`Data`). This maps references to serialized identifiers in both directions.
  - In table mode it keeps two `map`s.
  - In function mode it delegates to two caller-supplied lookups. Each lookup returns `Option`: `None` is the `false` result of the C++ function.
  - `HasRef`, `HasId`, `GetRef`, `GetId` and `Size` are reads. Their contracts relate each direction to the other when the tables are inverse.
- **Event pipe** (`Ecs`). This is a multi-reader event queue.
  - A class holds a `seq` of records (event, mask, read count), the reader count and the number of evicted records.
  - `Clear` is the source's `while` loop. It is proved against `EvictablePrefix`, the length of the longest front run whose read count equals the reader count.
  - `SentEvents` and `Size` are reads; the logical indices in use run from the evicted count up to `SentEvents`.

The mutable and the const iterator of the C++ code differ only in the mutability flag they pass to every bound call. The model has one `Iterator` class with a `writeable` constant.

Two behaviours of the code are easy to misread; the model follows the code:

- **Eviction test.** `Clear` evicts a record whose read count *equals* the reader count, not one read "at least" that many times (core/include/cubos/core/ecs/event_pipe.hpp:109). `OverReadRecordBlocks` and `ReaderLeavesScenario` show the consequence: a record read more often than there are readers is never evicted, and neither is anything behind it.
- **Repeated keys.** `Add` uses `unordered_map::insert`, which keeps the first mapping of a repeated reference or identifier. Nothing is overwritten (core/include/cubos/core/data/serialization_map.hpp:82-83).

## Model

| member | source | states |
|---|---|---|
| `Reflection.DictionaryTrait.constructor` | core/src/cubos/core/reflection/traits/dictionary.cpp:7-23 | a new trait has none of the four optional capabilities and no live handle |
| `Reflection.DictionaryTrait.SetInsertDefault` | core/src/cubos/core/reflection/traits/dictionary.cpp:25-29 | may only be called while insert-default is unset; afterwards it is bound to the given function |
| `Reflection.DictionaryTrait.SetInsertCopy` | core/src/cubos/core/reflection/traits/dictionary.cpp:31-35 | may only be called while insert-copy is unset; afterwards it is bound |
| `Reflection.DictionaryTrait.SetInsertMove` | core/src/cubos/core/reflection/traits/dictionary.cpp:37-41 | may only be called while insert-move is unset; afterwards it is bound |
| `Reflection.DictionaryTrait.SetErase` | core/src/cubos/core/reflection/traits/dictionary.cpp:43-47 | may only be called while erase is unset; afterwards it is bound |
| `Reflection.DictionaryTrait.HasInsertDefault` | core/src/cubos/core/reflection/traits/dictionary.cpp:147-150 | transparent: true exactly when insert-default is bound, which is when `InsertDefault` returns true |
| `Reflection.DictionaryTrait.HasInsertCopy` | core/src/cubos/core/reflection/traits/dictionary.cpp:152-155 | transparent: true exactly when insert-copy is bound, which is when `InsertCopy` returns true |
| `Reflection.DictionaryTrait.HasInsertMove` | core/src/cubos/core/reflection/traits/dictionary.cpp:157-160 | transparent: true exactly when insert-move is bound, which is when `InsertMove` returns true |
| `Reflection.DictionaryTrait.HasErase` | core/src/cubos/core/reflection/traits/dictionary.cpp:162-165 | transparent: true exactly when erase is bound, which is when `Erase` returns true |
| `Reflection.DictionaryTrait.Length` | core/src/cubos/core/reflection/traits/dictionary.cpp:59-62 | on a valid instance, the bound `length` equals the number of positions a cursor visits |
| `Reflection.DictionaryTrait.Open` | core/src/cubos/core/reflection/traits/dictionary.cpp:64-82 | the bound `begin`/`find` allocation: no handle for no position; otherwise a handle at that position whose address was not live before and is now live with the requested mutability |
| `Reflection.DictionaryTrait.Stop` | core/src/cubos/core/reflection/traits/dictionary.cpp:167-173 | the bound `stop`: requires a live handle opened with the same mutability, and removes exactly that handle from the live ones |
| `Reflection.DictionaryTrait.Begin` | core/src/cubos/core/reflection/traits/dictionary.cpp:64-72 | a fresh iterator on the instance with the requested mutability; null exactly when the instance is empty, else at the first key and owning a newly opened live handle |
| `Reflection.DictionaryTrait.Find` | core/src/cubos/core/reflection/traits/dictionary.cpp:74-82 | a fresh iterator; null exactly when the key is absent, else at that key and owning a newly opened live handle |
| `Reflection.DictionaryTrait.InsertDefault` | core/src/cubos/core/reflection/traits/dictionary.cpp:84-93 | returns whether the capability is bound; if bound, the instance becomes the bound function's result, otherwise it is unchanged |
| `Reflection.DictionaryTrait.InsertCopy` | core/src/cubos/core/reflection/traits/dictionary.cpp:95-104 | same soft-failure contract for insert-copy |
| `Reflection.DictionaryTrait.InsertMove` | core/src/cubos/core/reflection/traits/dictionary.cpp:106-115 | same soft-failure contract for insert-move |
| `Reflection.DictionaryTrait.Erase` | core/src/cubos/core/reflection/traits/dictionary.cpp:117-145 | requires a non-null iterator; if erase is bound, it erases at the cursor, stops the handle, nulls the iterator and returns true; otherwise it returns false and changes neither instance, iterator nor live handles |
| `Reflection.Iterator.constructor` | core/src/cubos/core/reflection/traits/dictionary.cpp:175-180 | wraps the given handle, instance, trait and mutability |
| `Reflection.Iterator.Copy` | core/src/cubos/core/reflection/traits/dictionary.cpp:182-191 | a copy of a null iterator is null; otherwise the copy re-finds the same key on the same instance with the same mutability, so it sits at the same position but owns a new handle that was not live before |
| `Reflection.Iterator.Move` | core/src/cubos/core/reflection/traits/dictionary.cpp:193-199 | the handle is transferred unchanged and the source becomes null |
| `Reflection.Iterator.Dispose` | core/src/cubos/core/reflection/traits/dictionary.cpp:167-173 | the destructor stops the handle if and only if the iterator still owns one |
| `Reflection.Iterator.Key` | core/src/cubos/core/reflection/traits/dictionary.cpp:201-205 | requires a non-null iterator; the key is one of the instance's keys |
| `Reflection.Iterator.Value` | core/src/cubos/core/reflection/traits/dictionary.cpp:207-211 | requires a non-null iterator; the value is the instance's entry for the current key |
| `Reflection.Iterator.Advance` | core/src/cubos/core/reflection/traits/dictionary.cpp:213-225 | requires a non-null iterator; true moves to the next position and keeps the handle; false means the handle was stopped and the iterator is null |
| `Reflection.Iterator.IsNull` | core/src/cubos/core/reflection/traits/dictionary.cpp:227-230 | transparent: true exactly when the iterator owns no handle |
| `MapInstance.IndexOf` | core/src/cubos/core/reflection/traits/dictionary.cpp:74-82 | the lookup behind `find`: finds a position exactly when the key occurs, and it is the key's first occurrence |
| `MapInstance.FindPos` | core/src/cubos/core/reflection/traits/dictionary.cpp:74-82 | on a valid instance `find` gives a position exactly when the key is present, and that position holds the key |
| `MapInstance.IndexOfDistinct` | core/src/cubos/core/reflection/traits/dictionary.cpp:187-190 | re-finding the key under a cursor gives back the cursor's own position, so a copy sits where the original does |
| `MapInstance.LengthIsPositions` | core/src/cubos/core/reflection/traits/dictionary.cpp:59-62 | `length` equals the number of positions a cursor can visit |
| `MapInstance.WalkIsSuffix` | core/src/cubos/core/reflection/traits/dictionary.cpp:213-225 | advancing from a position until `advance` fails visits exactly the keys from that position on |
| `MapInstance.IterationVisitsAll` | core/src/cubos/core/reflection/traits/dictionary.cpp:64-72 | `begin` is null exactly on an empty instance; otherwise iterating from it visits every key once, `length` keys in all |
| `MapInstance.Put` | core/src/cubos/core/reflection/traits/dictionary.cpp:95-104 | the example insert binding maps the key to the value and keeps the instance valid |
| `MapInstance.EraseAtValid` | core/src/cubos/core/reflection/traits/dictionary.cpp:117-130 | the example erase binding removes exactly the key under the cursor and keeps the instance valid |
| `MapInstance.PutThenFind` | core/src/cubos/core/reflection/traits/dictionary.cpp:95-104 | after inserting a key, finding it gives a position whose entry is the inserted value |
| `MapInstance.EraseThenFind` | core/src/cubos/core/reflection/traits/dictionary.cpp:117-130 | after erasing under a cursor, finding that cursor's key gives nothing |
| `Reflection.CollectKeys` | core/src/cubos/core/reflection/traits/dictionary.cpp:213-225 | a begin/advance loop sees every key once, in order and `length` of them, and ends with every handle it opened stopped |
| `Reflection.CopyIsIndependent` | core/src/cubos/core/reflection/traits/dictionary.cpp:182-191 | advancing a copy leaves the original at its own key; destroying both stops each handle exactly once |
| `Reflection.PutEraseTrait` | core/src/cubos/core/reflection/traits/dictionary.cpp:31-47 | binds the example insert-copy and erase once each; the other two capabilities stay absent |
| `Reflection.InsertFindErase` | core/src/cubos/core/reflection/traits/dictionary.cpp:95-130 | insert then find gives a non-null iterator with the inserted value; erasing through it nulls it; a later find is null |
| `Reflection.WithoutCapabilities` | core/src/cubos/core/reflection/traits/dictionary.cpp:84-145 | with nothing bound, every insert and erase returns false; the instance and the iterator are unchanged |
| `Data.Insert` | core/include/cubos/core/data/serialization_map.hpp:82-83 | table insertion adds the key; a key already present keeps its first value |
| `Data.AddFreshKeepsInverse` | core/include/cubos/core/data/serialization_map.hpp:79-84 | adding a pair whose reference and identifier are both new keeps the two tables inverse |
| `Data.AddAllFresh` | core/include/cubos/core/data/serialization_map.hpp:79-84 | after adding pairs with no repeated reference or identifier, the tables are inverse and every pair is found in both directions |
| `Data.AddAllKeeps` | core/include/cubos/core/data/serialization_map.hpp:82-83 | an entry once added is never overwritten by later additions |
| `Data.SerializationMap.constructor` | core/include/cubos/core/data/serialization_map.hpp:68-70 | table mode with both tables empty, size 0 |
| `Data.SerializationMap.WithFunctions` | core/include/cubos/core/data/serialization_map.hpp:72-77 | function mode: `HasRef`/`HasId` are the lookups' success flags, and size is 0 |
| `Data.SerializationMap.Add` | core/include/cubos/core/data/serialization_map.hpp:79-84 | requires table mode; both tables get first-write-wins insertion; the pair's reference and identifier are then present; a new reference maps to the identifier and a new identifier maps back to it; fresh pairs keep the tables inverse |
| `Data.SerializationMap.HasRef` | core/include/cubos/core/data/serialization_map.hpp:86-97 | in function mode, whether `serialize` succeeds; in table mode with inverse tables, true exactly when some identifier leads back to the reference |
| `Data.SerializationMap.HasId` | core/include/cubos/core/data/serialization_map.hpp:99-110 | in function mode, whether `deserialize` succeeds; in table mode with inverse tables, true exactly when some reference leads to the identifier |
| `Data.SerializationMap.GetRef` | core/include/cubos/core/data/serialization_map.hpp:112-124 | requires the identifier to be known, as the `.at` and the `assert` demand; in function mode the result is what `deserialize` yields; with inverse tables the result leads back to the identifier |
| `Data.SerializationMap.GetId` | core/include/cubos/core/data/serialization_map.hpp:126-138 | requires the reference to be known; in function mode the result is what `serialize` yields; with inverse tables the result leads back to the reference |
| `Data.SerializationMap.Size` | core/include/cubos/core/data/serialization_map.hpp:147-150 | the size of the reference table; with inverse tables it is also the size of the identifier table |
| `Data.InverseSameSize` | core/include/cubos/core/data/serialization_map.hpp:147-150 | two inverse tables have the same number of entries |
| `Data.SerializationMap.Clear` | core/include/cubos/core/data/serialization_map.hpp:140-145 | back to table mode, both tables empty, size 0, and no reference or identifier is reported present |
| `Data.RepeatedIdScenario` | core/include/cubos/core/data/serialization_map.hpp:82-83 | after adding `(r1,i1)` then `(r2,i1)`: `GetRef(i1)` is `r1`, but `GetId(r2)` is `i1`, and size is 2 |
| `Data.ClearDropsFunctionsScenario` | core/include/cubos/core/data/serialization_map.hpp:140-145 | clearing a function-mode map drops function mode, so nothing is present afterwards |
| `Ecs.EvictablePrefix` | core/include/cubos/core/ecs/event_pipe.hpp:107-114 | the number of records `clear` pops: the longest front run read exactly `readerCount` times |
| `Ecs.EvictedIff` | core/include/cubos/core/ecs/event_pipe.hpp:107-114 | a record is evicted if and only if it and every earlier record were read exactly `readerCount` times |
| `Ecs.OverReadRecordBlocks` | core/include/cubos/core/ecs/event_pipe.hpp:109 | a record read more often than there are readers is never evicted, and neither is any record behind it |
| `Ecs.EvictionIdempotent` | core/include/cubos/core/ecs/event_pipe.hpp:107-114 | a second sweep with nothing in between removes nothing |
| `Ecs.EventPipe.constructor` | core/include/cubos/core/ecs/event_pipe.hpp:72-79 | an empty pipe with no readers and nothing evicted, the reader count initialised to 0 |
| `Ecs.EventPipe.AsWritten` | core/include/cubos/core/ecs/event_pipe.hpp:75-76 | the pipe as declared: the reader count starts at an arbitrary value |
| `Ecs.EventPipe.Push` | core/include/cubos/core/ecs/event_pipe.hpp:84-88 | appends one record with the given mask and read count 0; the mask defaults to 0; nothing else changes and `SentEvents` grows by 1 |
| `Ecs.EventPipe.GetEventMask` | core/include/cubos/core/ecs/event_pipe.hpp:90-95 | requires a logical index that is neither evicted nor unsent; returns the mask of the record at the index minus the evicted count and changes nothing |
| `Ecs.EventPipe.Get` | core/include/cubos/core/ecs/event_pipe.hpp:97-104 | same range requirement; returns that record's event and mask and increments only that record's read count |
| `Ecs.EventPipe.Clear` | core/include/cubos/core/ecs/event_pipe.hpp:106-114 | pops exactly `EvictablePrefix` records from the front, adds that number to the evicted count, keeps `SentEvents`, and every survivor keeps its logical index |
| `Ecs.EventPipe.AddReader` | core/include/cubos/core/ecs/event_pipe.hpp:128-132 | the reader count grows by 1 |
| `Ecs.EventPipe.RemoveReader` | core/include/cubos/core/ecs/event_pipe.hpp:134-139 | the reader count drops by 1 if positive and stays 0 otherwise |
| `Ecs.EventPipe.SentEvents` | core/include/cubos/core/ecs/event_pipe.hpp:116-120 | at least the evicted count, and exceeding it by exactly the number of held records: the valid logical indices run from the evicted count up to it |
| `Ecs.EventPipe.Size` | core/include/cubos/core/ecs/event_pipe.hpp:122-126 | the number of sent events not yet evicted |
| `Ecs.TwoReadersScenario` | core/include/cubos/core/ecs/event_pipe.hpp:84-126 | with 2 readers and 3 events, after reading index 0 twice and indices 1 and 2 once, `clear` removes one record, 2 remain and `SentEvents` is still 3 |
| `Ecs.ReaderLeavesScenario` | core/include/cubos/core/ecs/event_pipe.hpp:107-139 | after both readers read both events and one reader leaves, `clear` removes nothing |
| `Ecs.OneReaderAsWritten` | core/include/cubos/core/ecs/event_pipe.hpp:75-76 | with a nonzero indeterminate reader count, an event that the one reader has read is not evicted |
| `Ecs.OneReader` | core/include/cubos/core/ecs/event_pipe.hpp:72-114 | with the count initialised to 0, the event that the one reader has read is evicted |

## Findings

| source | as written | input that shows it | evidently intended | confidence | as-written member | corrected member |
|---|---|---|---|---|---|---|
| core/include/cubos/core/ecs/event_pipe.hpp:76 | `readerCount` has no initialiser, unlike `deletedEvents` beside it | a default-initialised pipe whose storage held a nonzero value; add one reader, push one event, read it once, then `clear` | the count starts at 0, so the event the only reader has read is evicted | not executed; medium, because a value-initialised pipe is zeroed and only default initialisation shows it | `Ecs.OneReaderAsWritten` | `Ecs.OneReader` |

## Left out

- `Reflection.Iterator.Dispose` stands for the destructor, which C++ runs at the end of every iterator's life. Dafny calls nothing automatically, so a caller that drops a non-null iterator without `Dispose` still verifies and its handle stays live. That no handle is stopped twice holds everywhere, through the requires of `Reflection.DictionaryTrait.Stop`. That every handle is stopped at least once is proved only for the methods that end with `live` as they found it: `Reflection.CollectKeys` and `Reflection.CopyIsIndependent`.
- `Reflection.Iterator.constructor` stands for the constructor from a raw handle. In dictionary.cpp it is called only by `begin` and `find`, each with a handle just opened. The header that declares its access is not part of this model. The model does not restrict who calls it, so a caller could wrap one handle in two iterators; once one of them is disposed, the other is no longer valid and cannot be disposed.
- The `Type` descriptors (`keyType`, `valueType`) and the `void*`/`uintptr_t` casts are not modelled. Keys and values are the type parameters `K` and `V`, restricted to non-reference types (`!new`).
- The const iterator's value projection returns a read-only pointer and the mutable one a writable pointer. The model's values are immutable, so `Value` is the same for both; the difference is carried only by the `writeable` flag.
- The concrete capability functions of each reflected type are not part of this model. `MapInstance.Put` and `MapInstance.EraseAt` are one example binding, used to state what insert-then-find and erase-then-find give.
- What an insertion or erasure does to other iterators on the same instance is not modelled. After such a change, an iterator must be shown valid again before it is used.
- The moved-from state of the value given to insert-move is not modelled.
- `Reflection.DictionaryTrait.Erase` requires the iterator to belong to the instance passed. The source does not check this; erasing with another instance's cursor is undefined behaviour there.
- `Reflection.DictionaryTrait.SetInsertDefault`, `SetInsertCopy`, `SetInsertMove` and `SetErase` require the bound function to map a valid instance to a valid one. This obligation is implicit in the source.
- `Data.SerializationMap.GetRef` and `GetId` require the lookup to succeed in function mode, as the `assert` around the call demands. In a build with `NDEBUG` the source drops the call itself and returns a default-constructed value. The model does not reproduce that.
- The default constructor of the serialization map leaves its two `std::function`s empty; the model binds lookups that always fail. Table mode never calls them. `Clear` leaves the bound functions in place but unused, as the source does.
- The event pipe's read counter is atomic in the source, and the `Event` copy operations reload it. Concurrency is not modelled; the count is a plain `nat`.
- `size_t` wrap-around of the indices and counters is not modelled; they are unbounded `nat`s. An index below the evicted count wraps in the source and then faults in `deque::at`; the model requires the index to be in range instead.
