# Indexed collect consumer of rayon, in Dafny

This project models the write path of rayon's indexed `collect`. The output buffer
is preallocated and not yet initialized. A `CollectConsumer` owns one contiguous
sub-range of it and a reference to a shared `AtomicUsize` write counter. The
scheduler splits consumers at indices into disjoint halves. Each consumer that
stops splitting becomes a `CollectFolder`. The folder writes the items it is fed
into its slots one by one. On `complete` it adds its local write count to the
shared counter. It does so only if every slot was written. The buffer owner
treats the buffer as initialized only when the counter equals the buffer length.

Files and modules:

- `atomics.dfy` (`Atomics`): `WriteCounter`, the shared counter, with `FetchAdd`.
- `consumer.dfy` (`Consumer`): the faults and their panic messages. The region
  handle `CollectConsumer` is a value (a datatype holding the counter, the buffer
  and the bounds `lo..hi`), because the source only destructures and re-slices
  it. The folder `CollectFolder` is a class, because `consume` and `complete`
  change its cursor, its local count, the buffer and the counter in place.
- `splitting.dfy` (`Splitting`): a split tree records where the scheduler called
  `split_at`. Its leaves tile the root range end to end.
- `collect.dfy` (`Collect`): one leaf run to completion (`RunLeaf`), and a whole
  split tree whose leaves run one after another in any order (`RunSchedule`,
  `Collect`, `CollectExact`). This sequential run stands for the fork-join
  execution. The driving producer becomes one sequence of items per leaf. The
  worked examples (items 10, 20, 30, 40 into four slots, and the fault cases) are
  methods here too.

Panics become a `Fail(fault)` outcome. A failing `consume` writes nothing and
changes nothing. A failing `complete` leaves the counter alone. Any other panic
that the source raises is a precondition here: `split_at_mut` with an index past
the end of the slice. The buffer's "uninitialized" state is an array of default
values. `Collect` keeps a ghost bitmap of the slots that completed leaves have
initialized. The counter always equals the number of marked slots.

One consequence of the code, proved in `Collect`: a leaf that owns no slot (a
split at 0 or at the end) can receive an item and panic with "too many values".
The counter is unaffected. So the counter reaches the buffer length exactly when
every non-empty leaf was fed exactly its width, while `Collect` reports a fault
exactly when any leaf, empty or not, was fed a wrong number of items. The buffer is then fully
written, so reading the counter is still safe. The panic itself still fails the
whole operation, through the fork-join framework.

## Model

| member | source | states |
|---|---|---|
| `Consumer.CollectConsumer.New` | src/iter/collect/consumer.rs:29-34 | the handle has bounds `lo` and `hi`, owns exactly the slots `[lo, hi)` of the buffer, and holds the given counter |
| `Consumer.CollectConsumer.SplitAt` | src/iter/collect/consumer.rs:46-56 | for `index <= hi - lo` the left handle owns `[lo, lo+index)` and the right one `[lo+index, hi)`; their slot sets are disjoint and their union is the parent's; both keep the parent's buffer and counter |
| `Consumer.CollectConsumer.SplitOffLeft` | src/iter/collect/consumer.rs:93-95 | the open-ended split always faults with "must be indexed" and never yields a handle |
| `Consumer.CollectFolder.IntoFolder` | src/iter/collect/consumer.rs:58-64 | the new folder covers exactly the handle's range, has its cursor at `lo`, has `local_writes == 0`, and has written nothing |
| `Consumer.CollectFolder.Consume` | src/iter/collect/consumer.rs:70-80 | with slots left, it stores the item at the cursor, advances the cursor by one and increments `local_writes`; no other cell changes; `local_writes == cursor - lo` is kept; on a full range it fails with "too many values" and changes nothing |
| `Consumer.CollectFolder.Complete` | src/iter/collect/consumer.rs:82-87 | it succeeds exactly when no slot remains and then adds `local_writes`, which equals `hi - lo`, to the shared counter; otherwise it fails with "too few values" and leaves the counter unchanged |
| `Atomics.WriteCounter.FetchAdd` | src/iter/collect/consumer.rs:86 | the counter grows by exactly the amount added; the previous value is returned |
| `Splitting.Widths` | src/iter/collect/consumer.rs:46-56 | the leaf widths of a split tree add up to the root length |
| `Splitting.Leaves` | src/iter/collect/consumer.rs:46-56 | the leaves of any valid split tree lie end to end from the root's `lo` to its `hi` and share its buffer and counter |
| `Splitting.TilesOrdered` | src/iter/collect/consumer.rs:52-54 | an earlier leaf ends before a later leaf starts |
| `Splitting.TilesWithin` | src/iter/collect/consumer.rs:52-54 | every leaf lies within the root range |
| `Splitting.TilesDisjoint` | src/iter/collect/consumer.rs:52-54 | two different leaves share no slot |
| `Splitting.TilesCover` | src/iter/collect/consumer.rs:52-54 | every slot of the root range belongs to some leaf |
| `Collect.RunLeaf` | src/iter/collect/consumer.rs:58-87 | a leaf fed `n` items succeeds exactly when `n` equals its width; more items fail with "too many values" and fewer fail with "too few values"; on success the counter grows by the width; on failure it is unchanged; the slots reached hold the items in order; the slots not reached keep their old contents; nothing outside the leaf's range changes |
| `Collect.AccountCompleted` | src/iter/collect/consumer.rs:83-86 | a completed leaf initializes only slots that no other leaf has initialized, and every other leaf keeps its items |
| `Collect.AccountFailed` | src/iter/collect/consumer.rs:73-83 | a faulting leaf marks no slot as initialized, and every other leaf keeps its items |
| `Collect.Conclude` | src/iter/collect/consumer.rs:9-11 | after all leaves ran, all slots are marked exactly when every non-empty leaf was fed its width; the buffer then holds the items of all leaves in place |
| `Collect.RunSchedule` | src/iter/collect/consumer.rs:82-87 | running the leaves in any order keeps the counter equal to the number of slots that completed leaves initialized; it reports a fault exactly when some leaf was fed a number of items other than its width |
| `Collect.Collect` | src/iter/collect/consumer.rs:9-11 | for any split tree and any order of leaves, the collection faults exactly when some leaf was fed a number of items other than its width; without a fault the counter equals the buffer length; the counter never exceeds the buffer length; it equals the length exactly when every non-empty leaf was fed its width, and then the buffer holds every leaf's items in place |
| `Collect.CollectExact` | src/iter/collect/consumer.rs:46-87 | an exact-length producer split like the buffer fills `buffer[i] == item_i` for every `i` and brings the counter to the buffer length without any fault, whatever the split tree and the order of leaves |
| `Collect.SingleWriterExample` | src/iter/collect/consumer.rs:70-87 | one writer over four slots fed 10, 20, 30, 40 gives that buffer and a counter of 4 |
| `Collect.SplitAtTwoExample` | src/iter/collect/consumer.rs:46-87 | the same items split at 2, with the right leaf first, give the same buffer and a counter of 4 |
| `Collect.UnderProductionExample` | src/iter/collect/consumer.rs:83 | three slots fed two items: `complete` fails with the message "too few values pushed to consumer" and the counter stays 0 |
| `Collect.OverProductionExample` | src/iter/collect/consumer.rs:73 | three slots fed four items: the fourth `consume` fails with the message "too many values pushed to consumer"; the counter stays 0 although all three slots hold items |
| `Collect.SiblingFaultExample` | src/iter/collect/consumer.rs:83-86 | when one of two siblings is fed too few items, the collection faults and the counter stays below the buffer length |
| `Collect.EmptyLeafFaultExample` | src/iter/collect/consumer.rs:70-87 | a split at 0 whose empty left leaf is fed one item faults with "too many values", yet the right leaf fills both slots and the counter reaches 2 |

## Left out

- `cost` (consumer.rs:42-44) is left out. It multiplies a floating-point estimate by `FUNC_ADJUSTMENT`, which is defined outside this model. It is a scheduling heuristic that carries no meaning for the data.
- `to_reducer`, `NoopReducer` and the reducer returned by `split_at` are left out. They merge nothing.
- The `Consumer`, `Folder` and `UnindexedConsumer` traits are not part of this model. The same goes for the fork-join scheduler and the producer that drives a folder. Scheduling is an arbitrary order of the leaves. Each producer is a given sequence of items per leaf.
- Atomicity and `Ordering::Relaxed` of `fetch_add` are left out. The counter is an ordinary field, updated sequentially.
- `ptr::write` into uninitialized memory and skipping the drop are not modelled as memory operations. A write is a plain array assignment. The uninitialized state is tracked by a ghost bitmap.
- Rust's move semantics are not modelled. A handle cannot be used after it is split or turned into a folder, and a folder cannot be used after `complete`. The model relies on its callers to respect this: `RunSchedule` runs each leaf exactly once.
- Fixed-width `usize` arithmetic is not modelled. `local_writes` and the counter are unbounded naturals. Neither can exceed the buffer length (`Collect` proves the counter cannot), so wrap-around never arises.
- The panic of `split_at_mut` on an index past the end of the slice is modelled as a precondition of `SplitAt`, not as a fault outcome.
