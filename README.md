# ReactiveArray in Dafny

A model of ReactiveArray, an observable array written in Swift. Each mutation
of the array is described by an `Operation` value. The operation is pushed
into the array's signal. The array's own subscription to that signal applies
it to private storage, and every other subscriber receives the same value.
Because the signal delivers synchronously, the storage already reflects a
mutation when the mutator returns.

The project has three modules:

- `Operations` (`operation.dfy`) covers the operation variant. It has
  `Map`, `Value`, `==`, `!=` and `==` on arrays of operations. The array
  equality is a method with a loop, proved equal to a pure predicate.
  `MapOps` maps a whole stream of operations.
- `OperationLog` (`operation_log.dfy`) gives the pure meaning of the
  array's `updateArray`. `Applied` is the effect of one operation.
  `Replay` is the fold of a log of operations; it yields `None` where Swift
  would abort on a bad index. `Snapshot` is the list of appends a producer
  emits first. `CountValues` is the sequence of values the observable count
  takes. The lemmas here carry the proofs.
- `ReactiveArrays` (`reactive_array.dfy`) holds the `ReactiveArray` class.
  Its fields are the storage `elements` and the count property's current
  value `mutableCount`. Three ghost fields record history: the initial
  elements, the log of every operation sent into the sink, and every value
  the count has held. `Valid()` ties the storage to the replay of the log.
  Each mutator builds its operation and calls `Sink`. `Sink` runs
  `UpdateArray` and appends the operation to the log, which stands for what
  every subscriber receives. `Mirror` builds an array fed by the mapped
  producer stream. `Forward` delivers one later emission of the source to a
  mirror. The predicate `InSync` states what a mirror has received, and it
  implies that the mirror holds the mapped contents of the source.

Operation semantics, taken as `updateArray` applies them:

- `Insert(v, i)` is a true insertion. It needs `0 <= i <= count` and moves
  the later elements one place right.
- `Update(v, i)` replaces the element at `i` in place. It needs
  `0 <= i < count`.
- `RemoveElement(i)` needs `0 <= i < count` and moves the later elements
  one place left.
- Only `Append` and `RemoveElement` reassign the count property.

## Notes on the source

- `ReactiveArray/ReactiveArray.swift:121` and `:145` use a case `.Update`.
  `ReactiveArray/Operation.swift:13-15` declares only three cases. The model
  uses four. `Update` gets the same `map`, `value` and `==` treatment as
  `Insert`, and that extension is marked in a comment on the datatype.
- The test at `ReactiveArrayTests/ReactiveArraySpec.swift:408-420` starts
  from `[1,2,3,4]`. It skips the count property's current value twice
  (`:393` and `:405`) and takes the next value. Then it inserts at index 1
  and appends, and checks `counts == [countBeforeOperation + 1]`, that is
  `[5]`. That is replace semantics. The code inserts, so the value the
  append gives the count is 6. The model follows the code.
  `OperationLog.InsertThenAppendCount` derives the values `[4, 6]`.
- In the same vein, the tests at `ReactiveArraySpec.swift:176-187` and
  `:207-218` expect the subscript setter to emit an `Insert`. The code emits
  `Update` (`ReactiveArray.swift:105-107`, `:120-123`), and so does the model.
- Between cached count and length: after an `Insert`, `observableCount`
  trails `count` until the next `Append` or `RemoveElement`.
  `OperationLog.CountLag` states the exact lag.

## Model

| member | source | states |
|---|---|---|
| `Operations.Operation` | ReactiveArray/Operation.swift:11-15 | the closed variant `Append(value)`, `Insert(value, atIndex)`, `RemoveElement(atIndex)`, with a fourth case `Update(value, atIndex)` taken from ReactiveArray.swift:121 and :145 |
| `Operations.Operation.Map` | ReactiveArray/Operation.swift:17-28 | the result has the same case, the same index, and the transformed payload |
| `Operations.Operation.Value` | ReactiveArray/Operation.swift:43-52 | `None` exactly for a remove; otherwise the payload |
| `Operations.Equals` | ReactiveArray/Operation.swift:56-67 | the case-by-case comparison holds exactly when the two operations are structurally equal |
| `Operations.NotEquals` | ReactiveArray/Operation.swift:70-72 | holds exactly when `Equals` does not, which is exactly structural inequality |
| `Operations.ArrayEquals` | ReactiveArray/Operation.swift:76-86 | the length check followed by the loop returns true exactly when the lengths agree and the operations are pointwise equal in order, which is exactly sequence equality; the loop never reads past `rhs` |
| `Operations.PointwiseEqual` | ReactiveArray/Operation.swift:76-86 | the reference meaning of array equality (equal length, pointwise `Equals` in order), proved to hold exactly when the sequences are equal |
| `Operations.DifferentCasesNeverEqual` | ReactiveArray/Operation.swift:64-65 | operations of different cases are never equal and always unequal |
| `Operations.MapCases` | ReactiveArray/Operation.swift:20-25 | `Append(v)` maps to `Append(f(v))`, `Insert(v, i)` to `Insert(f(v), i)`, `Update(v, i)` to `Update(f(v), i)`, and `RemoveElement(i)` is left unchanged |
| `Operations.MapIdentity` | ReactiveArray/Operation.swift:17-28 | mapping with the identity gives back the operation |
| `Operations.MapComposition` | ReactiveArray/Operation.swift:17-28 | mapping with `g` then `h` equals mapping with their composition |
| `Operations.MapOps` | ReactiveArray/ReactiveArray.swift:131 | `producer.map { $0.map(f) }`: a stream of the same length whose operation at each position is the original one mapped |
| `Operations.MapOpsConcat` | ReactiveArray/ReactiveArray.swift:131 | mapping a stream distributes over concatenation, so order is kept |
| `Operations.MapOpsIdentity` | ReactiveArray/ReactiveArray.swift:131 | mapping a stream with the identity gives back the stream |
| `Operations.MapOpsComposition` | ReactiveArray/ReactiveArray.swift:131 | mapping a stream twice equals mapping it once with the composition |
| `OperationLog.Applicable` | ReactiveArray/ReactiveArray.swift:138-151 | the indices at which Swift's array accepts each operation without aborting: any append, an insert at `0..count`, an update or remove at `0..count-1` |
| `OperationLog.Applied` | ReactiveArray/ReactiveArray.swift:138-151 | position by position: an append adds the value at the end, an insert puts it at its index and shifts the rest right, an update replaces one position and keeps the length, a remove drops one position and shifts the rest left |
| `OperationLog.Replay` | ReactiveArray/ReactiveArray.swift:83-87 | the self-subscription applying each delivered operation in turn, from given contents; `None` once an operation would abort |
| `OperationLog.Snapshot` | ReactiveArray/ReactiveArray.swift:35 | `_elements.map { Operation.Append(value: $0) }`: one `Append` per element, same length, same order |
| `OperationLog.MapSeq` | ReactiveArray/ReactiveArray.swift:130-132 | Swift's `Array.map`: same length, each element transformed in place |
| `OperationLog.ChangesCount` | ReactiveArray/ReactiveArray.swift:140-149 | the operations after which `_mutableCount.value` is reassigned: append and remove |
| `OperationLog.CountChanges` | ReactiveArray/ReactiveArray.swift:140-149 | how many operations of a log reassign the count |
| `OperationLog.PendingInserts` | ReactiveArray/ReactiveArray.swift:143-144 | the inserts applied since the count was last reassigned |
| `OperationLog.CountValues` | ReactiveArray/ReactiveArray.swift:138-151 | the count property starts at the initial number of elements and gains exactly one value per append or remove, none for an insert or update; a value added last is the length at that point |
| `OperationLog.CountLag` | ReactiveArray/ReactiveArray.swift:138-151 | the last count value plus the inserts since the last append or remove equals the current length |
| `OperationLog.CountExactWithoutPendingInsert` | ReactiveArray/ReactiveArray.swift:138-151 | with no insert in the log, the count property always equals the length |
| `OperationLog.NoInsertNonePending` | ReactiveArray/ReactiveArray.swift:142-149 | a log without inserts leaves no insert pending |
| `OperationLog.ReplayConcat` | ReactiveArray/ReactiveArray.swift:83-87 | applying a concatenated log is applying the first part and then the second; an abort in either part aborts the whole |
| `OperationLog.ReplayPrefix` | ReactiveArray/ReactiveArray.swift:83-87 | a log that applies without an abort applies without one up to any point |
| `OperationLog.SnapshotReplay` | ReactiveArray/ReactiveArray.swift:35 | replaying one append per element into an empty array rebuilds the elements |
| `OperationLog.SnapshotThenLater` | ReactiveArray/ReactiveArray.swift:34-39 | a subscriber fed the snapshot and then every later operation, none lost and none repeated, rebuilds what the array holds |
| `OperationLog.MapApplied` | ReactiveArray/ReactiveArray.swift:138-151 | when an operation applies to the contents, its mapped form applies to the mapped contents, and applying commutes with mapping |
| `OperationLog.MapReplay` | ReactiveArray/ReactiveArray.swift:130-132 | replaying a mapped log over mapped contents gives the mapped result of the original replay |
| `OperationLog.MapSnapshot` | ReactiveArray/ReactiveArray.swift:130-132 | the mapped snapshot of the elements is the snapshot of the mapped elements |
| `OperationLog.MirrorReplay` | ReactiveArray/ReactiveArray.swift:130-132 | an array fed the mapped producer stream holds the mapped contents of the source after any number of later operations |
| `OperationLog.MirrorIdentity` | ReactiveArray/ReactiveArray.swift:130-132 | a mirror through the identity receives a stream that replays to the source's own contents |
| `OperationLog.MirrorComposition` | ReactiveArray/ReactiveArray.swift:130-132 | a mirror of a mirror receives the same stream as one mirror through the composed transform, and holds the source mapped by it |
| `OperationLog.InsertThenAppendCount` | ReactiveArrayTests/ReactiveArraySpec.swift:408-420 | from `[1,2,3,4]`, inserting 657 at 1 and then appending 656 gives `[1,657,2,3,4,656]`, and the count values are 4 then 6 |
| `OperationLog.RemoveExample` | ReactiveArrayTests/ReactiveArraySpec.swift:137-141 | removing index 1 from `[1,2,3,4]` gives `[1,3,4]` |
| `ReactiveArrays.ReactiveArray.Valid` | ReactiveArray/ReactiveArray.swift:78-95 | the storage is the replay of every emitted operation over the initial elements, and the count property has held exactly the values that replay gives |
| `ReactiveArrays.ReactiveArray.constructor` | ReactiveArray/ReactiveArray.swift:78-89 | the array holds the given elements, nothing has been emitted, and the count starts at their number |
| `ReactiveArrays.ReactiveArray.FromProducer` | ReactiveArray/ReactiveArray.swift:91-95 | starting empty, every produced operation is sent into the sink in order, so the log is the produced stream and the elements are its replay |
| `ReactiveArrays.ReactiveArray.UpdateArray` | ReactiveArray/ReactiveArray.swift:138-151 | the storage becomes `Applied` of the old storage; the count property is reassigned to the new length after an append or a remove and is otherwise untouched |
| `ReactiveArrays.ReactiveArray.Sink` | ReactiveArray/ReactiveArray.swift:83-87 | the operation is applied and appended to the emitted log, and the invariant is kept |
| `ReactiveArrays.ReactiveArray.Append` | ReactiveArray/ReactiveArray.swift:110-113 | the element is added at the end and the earlier ones are kept; `Append` is emitted; the count becomes the new length |
| `ReactiveArrays.ReactiveArray.Insert` | ReactiveArray/ReactiveArray.swift:115-118 | for `0 <= index <= count` the new contents are `old[..index] + [v] + old[index..]`; `Insert` is emitted; the count property is not touched |
| `ReactiveArrays.ReactiveArray.Update` | ReactiveArray/ReactiveArray.swift:120-123 | for `0 <= index < count` only position `index` changes and the length is kept; `Update` is emitted; the count property is not touched |
| `ReactiveArrays.ReactiveArray.Set` | ReactiveArray/ReactiveArray.swift:105-107 | the subscript setter has the effect of `Update`, emitting an `Update` |
| `ReactiveArrays.ReactiveArray.RemoveAtIndex` | ReactiveArray/ReactiveArray.swift:125-128 | for `0 <= index < count` exactly the element at `index` is removed and the later ones shift left; `RemoveElement` is emitted; the count becomes the new length |
| `ReactiveArrays.ReactiveArray.ToArray` | ReactiveArray/ReactiveArray.swift:134-136 | the contents are the replay of every emitted operation over the initial elements, and also over an empty array once the initial elements are announced as appends |
| `ReactiveArrays.ReactiveArray.Get` | ReactiveArray/ReactiveArray.swift:101-104 | the element at `index` of the contents |
| `ReactiveArrays.ReactiveArray.Count` | ReactiveArray/ReactiveArray.swift:48-50 | the length of the contents |
| `ReactiveArrays.ReactiveArray.IsEmpty` | ReactiveArray/ReactiveArray.swift:44-46 | true exactly when the count is 0, exactly when the contents are empty |
| `ReactiveArrays.ReactiveArray.StartIndex` | ReactiveArray/ReactiveArray.swift:52-54 | 0, and equal to the end index exactly when the array is empty |
| `ReactiveArrays.ReactiveArray.EndIndex` | ReactiveArray/ReactiveArray.swift:56-58 | the count |
| `ReactiveArrays.ReactiveArray.First` | ReactiveArray/ReactiveArray.swift:60-62 | `None` exactly when empty; otherwise the element at the start index |
| `ReactiveArrays.ReactiveArray.Last` | ReactiveArray/ReactiveArray.swift:64-72 | `None` exactly when empty; otherwise the element at `count - 1` |
| `ReactiveArrays.ReactiveArray.ObservableCount` | ReactiveArray/ReactiveArray.swift:41-42 | the last value the count property was given, which with the pending inserts added equals the count |
| `ReactiveArrays.ReactiveArray.Producer` | ReactiveArray/ReactiveArray.swift:34-39 | one `Append` per current element, in order, and replaying it into an empty array rebuilds the contents |
| `ReactiveArrays.ReactiveArray.Mirror` | ReactiveArray/ReactiveArray.swift:130-132 | a fresh array whose log is the mapped producer stream, whose contents are the source's contents mapped, and which is in sync with the source |
| `ReactiveArrays.InSync` | ReactiveArray/ReactiveArray.swift:36 | what a mirror's subscription has delivered: the mapped snapshot of the source at subscription time, then every source operation emitted afterwards, mapped, in order |
| `ReactiveArrays.InSyncMirrors` | ReactiveArray/ReactiveArray.swift:130-132 | a mirror in sync with its source holds the mapped contents of the source |
| `ReactiveArrays.Forward` | ReactiveArray/ReactiveArray.swift:36 | a later source operation is applied to the source and its mapped form to the mirror; each log grows by that operation, neither initial value changes, each count is reassigned exactly after an append or remove; the two stay in sync and the mirror equals the mapped source |
| `ReactiveArrays.MirrorExample` | ReactiveArrayTests/ReactiveArraySpec.swift:198-234 | from `[1,2,3,4]` mirrored through `x + 10`, the mirror holds `[11,12,13,14]`; after the source appends 5, the mirror receives `Append(15)` and holds `[11,12,13,14,15]` |

## Left out

- Signals, signal producers, `concat`, `observe`, `start`, `MutableProperty`
  and `PropertyOf` come from the ReactiveCocoa library. They are replaced by
  a synchronous step: apply the operation, then append it to the ghost log
  of emitted operations. The public `signal` (ReactiveArray.swift:30-32) is
  that log.
- Subscription, unsubscription and the delivery order among several
  subscribers are left out. That is the library's scheduling, not code of
  this repository. `Forward` models delivery to one mirror, after the
  source's own subscription.
- The `unowned self` capture in the self-subscription is left out; it is
  memory management.
- `debugDescription` on operations and on arrays is left out; it is string
  formatting only.
- The `CollectionType`/`MutableCollectionType` conformance beyond the listed
  accessors is left out.
- A bounds violation aborts the Swift program. The mutators and `Get`
  require an in-range index instead. `Replay` returns `None` for a log that
  would abort, so `FromProducer` requires a log that does not.
- The convenience `init()` (ReactiveArray.swift:97-99) is the unnamed
  constructor called with `[]`.
- `ObservableCount` and `Count` use unbounded integers. Swift's `Int` is
  64-bit, but a length cannot reach that bound in memory.
