/** The indexed collect consumer: a handle on a sub-range of a preallocated
    output buffer, and the folder that writes items into that sub-range. */
module Consumer {
  import opened Atomics

  /** The three fatal conditions of this component. */
  datatype Fault = TooManyValues | TooFewValues | MustBeIndexed
  {
    /** The panic message the component raises. */
    function Message(): string {
      match this
      case TooManyValues => "too many values pushed to consumer"
      case TooFewValues => "too few values pushed to consumer"
      case MustBeIndexed => "CollectConsumer must be indexed!"
    }
  }

  /** A step either succeeds or fails with a fault. */
  datatype Outcome = Pass | Fail(fault: Fault)

  /** A region handle: the shared counter and the slots [lo, hi) of `target`.
      The slice `&mut [I]` of the source is the pair of bounds on the buffer. */
  datatype CollectConsumer<T> = CollectConsumer(writes: WriteCounter, target: array<T>, lo: nat, hi: nat)
  {
    ghost predicate Valid() {
      lo <= hi <= target.Length
    }

    /** Number of slots the handle owns. */
    function Len(): nat
      requires Valid()
    {
      hi - lo
    }

    /** The buffer indices the handle owns. */
    ghost function Slots(): set<int> {
      Interval(lo, hi)
    }

    /** Binds a handle to the slots [lo, hi) of `target` and to the shared counter. */
    static function New(writes: WriteCounter, target: array<T>, lo: nat, hi: nat): (c: CollectConsumer<T>)
      requires lo <= hi <= target.Length
      ensures c.Valid() && c.writes == writes && c.target == target
      ensures c.lo == lo && c.hi == hi && c.Len() == hi - lo
      ensures forall k :: k in c.Slots() <==> lo <= k < hi
    {
      CollectConsumer(writes, target, lo, hi)
    }

    /** Splits the owned range at `index` (relative to `lo`) into a left and a right
        handle. Both keep the parent's counter; neither buffer nor counter is touched. */
    function SplitAt(index: nat): (halves: (CollectConsumer<T>, CollectConsumer<T>))
      requires Valid() && index <= Len()
      ensures halves.0.Valid() && halves.1.Valid()
      ensures halves.0.writes == writes && halves.1.writes == writes
      ensures halves.0.target == target && halves.1.target == target
      ensures halves.0.Len() == index && halves.1.Len() == Len() - index
      ensures halves.0.lo == lo && halves.0.hi == halves.1.lo && halves.1.hi == hi
      ensures halves.0.Slots() * halves.1.Slots() == {}
      ensures halves.0.Slots() + halves.1.Slots() == Slots()
    {
      (CollectConsumer(writes, target, lo, lo + index), CollectConsumer(writes, target, lo + index, hi))
    }

    /** The open-ended split used by unindexed collection: never legitimate here. */
    function SplitOffLeft(): (r: Outcome)
      ensures r.Fail? && r.fault == MustBeIndexed
    {
      Fail(MustBeIndexed)
    }
  }

  /** The integers in [lo, hi), built one at a time so that their number is known. */
  ghost function Interval(lo: int, hi: int): (s: set<int>)
    ensures forall k :: k in s <==> lo <= k < hi
    ensures lo <= hi ==> |s| == hi - lo
    decreases hi - lo
  {
    if hi <= lo then {} else Interval(lo, hi - 1) + {hi - 1}
  }

  /** A sequential writer over one handle's range: a cursor that moves from
      `start` to `end`, the number of slots written so far, and the counter. */
  class CollectFolder<T> {
    const globalWrites: WriteCounter
    var localWrites: nat
    const target: array<T>
    var cursor: nat
    const end: nat
    ghost const start: nat
    /** The items written so far, in order. */
    ghost var Consumed: seq<T>

    ghost predicate Valid()
      reads this, target
    {
      start <= cursor <= end <= target.Length &&
      localWrites == cursor - start &&
      target[start..cursor] == Consumed
    }

    /** Slots still to be written (the length of the slice iterator). */
    function Remaining(): nat
      reads this
      requires cursor <= end
    {
      end - cursor
    }

    /** Turns a handle into a writer over the same range, with nothing written yet. */
    constructor IntoFolder(c: CollectConsumer<T>)
      requires c.Valid()
      ensures Valid()
      ensures globalWrites == c.writes && target == c.target
      ensures start == c.lo && cursor == c.lo && end == c.hi
      ensures localWrites == 0 && Consumed == []
      ensures Remaining() == c.Len()
    {
      globalWrites := c.writes;
      target := c.target;
      start := c.lo;
      cursor := c.lo;
      end := c.hi;
      localWrites := 0;
      Consumed := [];
    }

    /** Writes `item` into the next slot. Fails, writing nothing, when the range is full. */
    method Consume(item: T) returns (r: Outcome)
      requires Valid()
      modifies this, target
      ensures Valid()
      ensures r.Pass? <==> old(Remaining()) > 0
      ensures r.Fail? ==> r.fault == TooManyValues && unchanged(this) && unchanged(target)
      ensures r.Pass? ==> cursor == old(cursor) + 1 && localWrites == old(localWrites) + 1
      ensures r.Pass? ==> target[old(cursor)] == item && Consumed == old(Consumed) + [item]
      ensures forall k :: 0 <= k < target.Length && k != old(cursor) ==> target[k] == old(target[k])
    {
      if cursor == end {
        return Fail(TooManyValues);
      }
      target[cursor] := item;
      Consumed := Consumed + [item];
      cursor := cursor + 1;
      localWrites := localWrites + 1;
      assert target[start..cursor] == target[start..cursor - 1] + [item];
      r := Pass;
    }

    /** Adds the local write count to the shared counter, provided every slot was
        written; otherwise fails and leaves the counter alone. */
    method Complete() returns (r: Outcome)
      requires Valid()
      modifies globalWrites
      ensures Valid()
      ensures r.Pass? <==> Remaining() == 0
      ensures r.Fail? ==> r.fault == TooFewValues && globalWrites.count == old(globalWrites.count)
      ensures r.Pass? ==> globalWrites.count == old(globalWrites.count) + (end - start)
      ensures r.Pass? ==> target[start..end] == Consumed
    {
      if cursor != end {
        return Fail(TooFewValues);
      }
      var _ := globalWrites.FetchAdd(localWrites);
      r := Pass;
    }
  }
}
