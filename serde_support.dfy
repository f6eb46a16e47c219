/**
 * Encoding a queue as the record `{capacity, values}`, with the values oldest first, and
 * decoding it back.
 */
module SerdeSupport {
  import opened Sequences
  import opened Lib

  /** The record a queue is written as: its capacity, then its values from oldest to newest. */
  datatype QueueData<T> = QueueData(capacity: nat, values: seq<T>)

  /** The decoding error: more values than the capacity admits; it carries their number. */
  datatype DeError = InvalidLength(length: nat)

  datatype Result<R, E> = Ok(value: R) | Err(error: E)

  /**
   * Writes the capacity and then the values, element by element, from the ascending view;
   * the announced sequence length is the queue's length.
   */
  method Serialize<T>(q: CircularQueue<T>) returns (d: QueueData<T>)
    requires q.Valid()
    ensures d.capacity == q.Capacity()
    ensures d.values == q.AscIter()
    ensures |d.values| == q.Len() <= d.capacity
  {
    var length := q.Len();
    var elements := q.AscIter();
    var values := [];
    for i := 0 to length
      invariant values == elements[..i]
    {
      values := values + [elements[i]];
    }
    d := QueueData(q.capacity, values);
  }

  /**
   * Reads a record back: more values than the capacity is an error carrying their number;
   * otherwise the queue is assembled directly from the values with split point 0.
   */
  method Deserialize<T>(d: QueueData<T>) returns (r: Result<CircularQueue<T>, DeError>)
    ensures r.Err? <==> |d.values| > d.capacity
    ensures r.Err? ==> r.error == InvalidLength(|d.values|)
    ensures r.Ok? ==> fresh(r.value) && r.value.Valid()
    ensures r.Ok? ==> r.value.data == d.values && r.value.capacity == d.capacity
    ensures r.Ok? ==> r.value.insertionIndex == 0
  {
    if |d.values| > d.capacity {
      return Err(InvalidLength(|d.values|));
    }
    var q := new CircularQueue.Assemble(d.values, d.capacity, 0);
    r := Ok(q);
  }

  /** A decoded queue yields the values oldest first, and newest first in reverse. */
  lemma DecodedViews<T>(q: CircularQueue<T>, values: seq<T>)
    requires q.Valid() && q.data == values && q.insertionIndex == 0
    ensures q.Len() == |values|
    ensures q.AscIter() == values
    ensures q.Iter() == Reverse(values)
  {
    AscendingUnsplit(values);
  }

  /**
   * Decoding `values` gives the same newest-to-oldest view as pushing them in order into an
   * empty queue of the same capacity.
   */
  lemma DecodedMatchesPushed<T>(cap: nat, values: seq<T>)
    requires |values| <= cap
    ensures Descending(values, 0) == Reverse(Pushed(cap, values))
  {
    AscendingUnsplit(values);
    PushedBelowCapacity(cap, values);
  }

  /** A decoded queue equals the queue built by pushing the same values. */
  lemma DecodedEqualsPushed<T>(p: CircularQueue<T>, q: CircularQueue<T>, values: seq<T>)
    requires p.Valid() && p.data == values && p.insertionIndex == 0
    requires q.Valid() && |values| <= q.capacity && q.AscIter() == Pushed(q.capacity, values)
    ensures Equal(p, q)
  {
    DecodedViews(p, values);
    PushedBelowCapacity(q.capacity, values);
  }

  /** Re-reading the ascending view from split point 0 gives back the original views. */
  lemma {:induction false} RoundTripViews<T>(data: seq<T>, idx: nat)
    requires idx <= |data|
    ensures Ascending(Ascending(data, idx), 0) == Ascending(data, idx)
    ensures Descending(Ascending(data, idx), 0) == Descending(data, idx)
  {
    AscendingUnsplit(Ascending(data, idx));
    DescendingReversesAscending(data, idx);
  }

  /**
   * Writing a queue and reading the record back succeeds, whatever the fill state, and
   * gives a queue equal to the original with the same capacity.
   */
  method RoundTrip<T(==)>(q: CircularQueue<T>) returns (r: Result<CircularQueue<T>, DeError>)
    requires q.Valid()
    ensures r.Ok? && r.value.Valid()
    ensures r.value.capacity == q.capacity
    ensures Equal(r.value, q)
  {
    var d := Serialize(q);
    r := Deserialize(d);
    RoundTripViews(q.data, q.insertionIndex);
  }

  /**
   * Pushing onto a decoded queue that is neither empty nor full appends after the newest
   * value while the split point moves from 0 to 1, so the oldest value is read as the
   * newest: the ascending view no longer follows the order of insertion.
   */
  lemma DecodedPushMisorders<T>(values: seq<T>, cap: nat, x: T)
    requires 0 < |values| < cap
    ensures Ascending(values + [x], (0 + 1) % cap) == values[1..] + [x] + [values[0]]
  {
    NextSlot(0, cap);
    assert (values + [x])[1..] == values[1..] + [x];
    assert (values + [x])[..1] == [values[0]];
  }

  /** For instance, decoding `[1, 2]` with capacity 3 and pushing 3 gives `[2, 3, 1]`. */
  lemma DecodedPushMisordersExample()
    ensures Ascending([1, 2] + [3], (0 + 1) % 3) == [2, 3, 1] != PushContents([1, 2], 3, 3)
  {
    DecodedPushMisorders([1, 2], 3, 3);
    assert PushContents([1, 2], 3, 3) == [1, 2, 3];
    assert [2, 3, 1][0] != [1, 2, 3][0];
  }
}
