# circular-queue in Dafny

A model of `CircularQueue<T>`, a fixed-capacity queue that overwrites its oldest element
once it is full, together with its encoding as the record `{capacity, values}`.

The queue is the class `Lib.CircularQueue` with the three fields of the Rust struct:

- `data`, the storage. It is a `seq<T>` that grows by appending up to `capacity` elements.
- `capacity`.
- `insertionIndex`, the next slot to write. Once the queue is full it is also the oldest element.

Every view splits `data` at `insertionIndex`:

- `Ascending(data, idx)` is the upper part followed by the lower part. It is read by `asc_iter`.
- `Descending(data, idx)` is the lower part reversed, followed by the upper part reversed. It is read by `iter`.

The two views are each other's reversal (`DescendingReversesAscending`). The ascending view
is the storage read as a ring that starts at `idx` (`AscendingIsRotation`).

Two invariants are used:

- `Valid()` admits every state the crate can reach. This includes a decoded queue: its split
  point is 0 even when its storage is shorter than its capacity.
- The stronger `Canonical()` adds "not full ⇒ `insertionIndex == |data|`". `WithCapacity`,
  `Clear` and `Push` preserve it.

On canonical states, `Push` is proved against a reference specification of the logical
contents, `PushContents`. `Pushed(cap, xs)` folds `PushContents` over a sequence of pushes.
`PushedKeepsNewest` proves that a queue of capacity `cap` holds exactly the last `cap` values
pushed.

Modules: `Sequences` (reversal and its lemmas), `Lib` (`src/lib.rs`) and `SerdeSupport`
(`src/serde_support.rs`).

Decoding does not replay the values through `push`. It builds the queue directly with
`insertion_index: 0` (src/serde_support.rs:77-81), so a decoded queue that is not full has its
cursor at 0, not at `values.len()`. The model does the same:

- `iter`, `asc_iter` and equality are still right on that state (`DecodedViews`,
  `DecodedEqualsPushed`).
- A later push onto a decoded queue that is neither empty nor full puts the values out of
  insertion order (`DecodedPushMisorders`).

## Model

| member | source | states |
|---|---|---|
| `Lib.CircularQueue.WithCapacity` | src/lib.rs:95-101 | a new queue is empty, has the requested capacity, index 0, and satisfies the canonical invariant |
| `Lib.CircularQueue.Len` | src/lib.rs:118-120 | the length never exceeds the capacity and is the number of elements the views yield |
| `Lib.CircularQueue.IsEmpty` | src/lib.rs:136-138 | true exactly when `iter` and `asc_iter` yield nothing |
| `Lib.CircularQueue.IsFull` | src/lib.rs:160-162 | true exactly when `iter` yields `capacity` elements |
| `Lib.CircularQueue.Capacity` | src/lib.rs:175-177 | the capacity bounds the number of elements yielded |
| `Lib.CircularQueue.Clear` | src/lib.rs:195-198 | empties the storage, resets the index to 0, keeps the capacity: the state of a fresh `WithCapacity(capacity)` |
| `Lib.CircularQueue.Push` | src/lib.rs:228-244 | zero capacity: returns None and changes nothing; not full: appends and returns None; full: overwrites the slot at the index and returns its old value; the index advances modulo the capacity; `Valid` and `Canonical` are preserved; on a canonical queue the ascending contents become `PushContents(old contents, capacity, x)`, the evicted value is the oldest, and with positive capacity `x` is the first element `iter` yields |
| `Lib.CircularQueue.Iter` | src/lib.rs:268-271 | yields one element per stored element, in exactly the reverse of `AscIter` |
| `Lib.CircularQueue.AscIter` | src/lib.rs:322-325 | yields one element per stored element; its order, the storage read as a ring from the index, is stated by `AscendingIsRotation` |
| `Lib.CircularQueue.IterMut` | src/lib.rs:295-298 | walks the storage newest to oldest and replaces the k-th element yielded by `f(k, element)`; the index, capacity and length are unchanged, so the order is kept |
| `Lib.CircularQueue.AscIterMut` | src/lib.rs:349-352 | the same, oldest to newest: the ascending view becomes `f` applied position-wise to the old one |
| `Lib.CircularQueue.IntoVec` | src/lib.rs:373-377 | reversing the upper part and then the lower part in place yields exactly `Iter()`, a permutation of the storage |
| `Lib.ReverseRange` | src/lib.rs:374-375 | in-place slice reversal: the segment is reversed and everything outside it is untouched |
| `Lib.ReversedSegment` | src/lib.rs:374-375 | a sequence that mirrors another on a segment and agrees with it elsewhere is the segment-reversed sequence |
| `Lib.TwoReversalsRotate` | src/lib.rs:373-377 | reversing the upper part and then the lower part of the storage gives exactly the `iter` order |
| `Lib.DescendingPermutes` | src/lib.rs:373-377 | the newest-to-oldest order is a permutation of the storage |
| `Lib.VecFrom` | src/lib.rs:390-395 | converting into a vector gives the newest-to-oldest sequence, of length `Len()` |
| `Lib.Equal` | src/lib.rs:380-385 | equal lengths and pairwise-equal `iter` elements; holds iff the two `Iter()` sequences (equivalently the `AscIter()` sequences) are equal, so capacity plays no part |
| `Lib.EqualReflexive` | src/lib.rs:387 | equality is reflexive |
| `Lib.EqualSymmetric` | src/lib.rs:380-385 | equality is symmetric |
| `Lib.EqualTransitive` | src/lib.rs:387 | equality is transitive, so it is a full equivalence (`Eq`) |
| `Lib.ZeroCapacity` | src/lib.rs:404-422 | a zero-capacity queue has length 0, is both empty and full, and both views yield nothing |
| `Lib.Ascending` | src/lib.rs:322-325 | the oldest-to-newest view has one element per stored element |
| `Lib.Descending` | src/lib.rs:268-271 | the newest-to-oldest view has one element per stored element |
| `Lib.AscendingPermutes` | src/lib.rs:322-325 | the ascending view only reorders the storage |
| `Lib.AscendingIsRotation` | src/lib.rs:322-325 | element k of the ascending view is storage slot `(idx + k) mod len` |
| `Lib.DescendingReversesAscending` | src/lib.rs:268-325 | for every split point, the `iter` order is the reverse of the `asc_iter` order and back |
| `Lib.DescendingAt` | src/lib.rs:268-271 | locates element k of the newest-to-oldest view in the storage (lower part backwards, then upper part backwards) |
| `Lib.AscendingUnsplit` | src/lib.rs:322-325 | with the split point at either end, the ascending view is the storage and the descending view its reverse |
| `Lib.PushContents` | src/lib.rs:228-244 | reference specification of one push on the logical contents: the length stays 0 on zero capacity, otherwise grows by one up to the capacity |
| `Lib.Pushed` | src/lib.rs:228-244 | pushing `xs` into an empty queue leaves `min(len xs, cap)` elements |
| `Lib.PushedKeepsNewest` | src/lib.rs:228-244 | after any sequence of pushes, the contents are exactly the last `cap` values pushed, oldest first |
| `Lib.PushedBelowCapacity` | src/lib.rs:235-236 | pushing at most `cap` values loses none of them |
| `Lib.PushedIsNewest` | src/lib.rs:235-241 | on the reference contents of a canonical queue: after a push with positive capacity, the pushed value is the first element `iter` yields (`Push` states the same of the queue when it was canonical) |
| `Lib.AppendKeepsOrder` | src/lib.rs:235-241 | appending to a queue that is not full and whose index is its length keeps the ascending view equal to the storage, including when the index wraps to 0 |
| `Lib.OverwriteKeepsOrder` | src/lib.rs:237-241 | overwriting the slot at the index of a full storage and advancing the index drops the oldest element and adds the new one as newest |
| `Lib.PushAll` | src/lib.rs:228-244 | pushing `xs` in order into a canonical queue leaves `Pushed(capacity, old contents + xs)` |
| `Lib.CircularQueue.Assemble` | src/serde_support.rs:77-81 | builds a queue directly from storage, capacity and index |
| `SerdeSupport.Serialize` | src/serde_support.rs:19-47 | the record's `capacity` is the queue's capacity and its `values` are the `asc_iter` sequence, of length `len()` |
| `SerdeSupport.Deserialize` | src/serde_support.rs:61-83 | fails exactly when there are more values than the capacity, and the error carries that count; otherwise it gives a fresh queue whose storage is the values, with the given capacity and index 0 |
| `SerdeSupport.DecodedViews` | src/serde_support.rs:74-81 | a decoded queue has length `values.len()`, `asc_iter` yields the values and `iter` yields them reversed |
| `SerdeSupport.DecodedMatchesPushed` | src/serde_support.rs:77-81 | the newest-to-oldest view of a decoded state is that of pushing the values in order into an empty queue of that capacity |
| `SerdeSupport.DecodedEqualsPushed` | src/serde_support.rs:77-81 | a decoded queue is `==` to the queue built by pushing the same values |
| `SerdeSupport.RoundTripViews` | src/serde_support.rs:31-83 | storing the ascending view at split point 0 reproduces both views of the original state |
| `SerdeSupport.RoundTrip` | src/serde_support.rs:31-83 | serialising and deserialising any valid queue succeeds and gives a queue with the same capacity that is `==` to the original |
| `SerdeSupport.DecodedPushMisorders` | src/serde_support.rs:77-81 | pushing x onto a decoded queue that is neither empty nor full gives the ascending view `values[1..] + [x] + [values[0]]` |
| `SerdeSupport.DecodedPushMisordersExample` | src/serde_support.rs:77-81 | decoding `[1, 2]` with capacity 3 and pushing 3 gives `[2, 3, 1]`, not the `[1, 2, 3]` that pushing would give |

## Left out

- The `cfg` switches between `std` and `no_std`, the feature gating, and `build.rs`.
  These are build configuration and carry no logic.
- Zero-sized element types. They are a memory-layout concern. The model keeps the explicit
  `capacity` field, which is what the crate uses to handle them.
- Allocation hints (`Vec::with_capacity`, `reserve`). They have no observable effect.
- `usize`: lengths and indices are `nat`. The index stays below the capacity, so
  `insertion_index + 1` cannot overflow.
- The lazy iterator types (`Chain`, `Rev`, slice iterators) and borrow and lifetime rules.
  `Iter` and `AscIter` return the whole yielded sequence.
- Lib.CircularQueue.IterMut: the caller's mutation through `&mut T` is modelled as a pure
  function `f(k, element)` of the position in iteration order and the old value. Effects in
  the caller are not modelled.
- Lib.CircularQueue.AscIterMut: modelled with the same pure function `f(k, element)` as `IterMut`.
- Lib.CircularQueue.IntoVec: the storage is a sequence value, so the method copies it into
  a fresh array and performs the two in-place reversals there. The queue object is not
  consumed and stays unchanged.
- Lib.CircularQueue.Push: the postcondition writes the index step as "plus one, or 0 at the
  capacity". The body uses `% capacity` as the source does. The two agree because the index
  is below the capacity.
- `Clone` and `Debug` derives: they are not part of the queue's behaviour.
- The serde `Serializer`/`Deserializer` traits, the token stream, and the JSON and bincode
  encodings. Only the abstract `{capacity, values}` record and the length error are modelled.
- Lib.Equal: element equality is Dafny's built-in `==`, that is, an `Eq` type whose equality
  is structural. Element types that are only `PartialEq` (such as floats with NaN) and element
  equalities coarser than identity are not modelled; for them `eq` need not coincide with
  equality of the `iter` sequences, and `EqualReflexive` need not hold.
- SerdeSupport.Deserialize: the error keeps only the offending length, not serde's message text.
