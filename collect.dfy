/** Running the leaves of a split tree: each leaf handle becomes a folder that is
    fed its producer's items and then completed. The driving producer and the
    fork-join scheduler are outside the component; here they are a sequence of
    items per leaf and an arbitrary order in which the leaves run. */
module Collect {
  import opened Atomics
  import opened Consumer
  import opened Splitting

  /** The slots of handle `c` in `contents` hold exactly `part`. */
  ghost predicate Placed<T>(contents: seq<T>, c: CollectConsumer<T>, part: seq<T>) {
    c.lo <= c.hi <= |contents| && contents[c.lo..c.hi] == part
  }

  /** Every leaf that owns at least one slot is fed exactly as many items as it owns. */
  ghost predicate FedExactly<T>(feeds: seq<seq<T>>, ws: seq<nat>) {
    |feeds| == |ws| && forall m :: 0 <= m < |ws| && ws[m] > 0 ==> |feeds[m]| == ws[m]
  }

  /** The buffer content the leaves produce: the first `ws[m]` items of leaf `m`'s
      feed, leaf after leaf. */
  function Layout<T>(feeds: seq<seq<T>>, ws: seq<nat>): seq<T>
    requires |feeds| == |ws|
    requires forall m :: 0 <= m < |ws| ==> ws[m] <= |feeds[m]|
  {
    if ws == [] then [] else feeds[0][..ws[0]] + Layout(feeds[1..], ws[1..])
  }

  /** Cuts `items` into consecutive pieces of the widths `ws`, as an indexed producer
      is split at the same points as its consumer. Laying the pieces out again gives
      back `items`. */
  function Chop<T>(items: seq<T>, ws: seq<nat>): (parts: seq<seq<T>>)
    requires Sum(ws) == |items|
    ensures |parts| == |ws|
    ensures forall m :: 0 <= m < |ws| ==> |parts[m]| == ws[m]
    ensures Layout(parts, ws) == items
  {
    if ws == [] then []
    else
      var rest := Chop(items[ws[0]..], ws[1..]);
      assert ([items[..ws[0]]] + rest)[1..] == rest;
      [items[..ws[0]]] + rest
  }

  /** Handles that tile [lo, hi) and each hold their piece spell out the layout of the pieces. */
  lemma {:induction false} Assemble<T>(contents: seq<T>, ls: seq<CollectConsumer<T>>, lo: nat, hi: nat,
                                       feeds: seq<seq<T>>, ws: seq<nat>)
    requires Tiles(ls, lo, hi) && lo <= hi <= |contents|
    requires |feeds| == |ls| && |ws| == |ls|
    requires forall m :: 0 <= m < |ls| ==> ls[m].Len() == ws[m] <= |feeds[m]|
    requires forall m :: 0 <= m < |ls| ==> Placed(contents, ls[m], feeds[m][..ws[m]])
    ensures contents[lo..hi] == Layout(feeds, ws)
    decreases |ls|
  {
    if |ls| == 1 {
      assert Layout(feeds[1..], ws[1..]) == [];
    } else {
      TilesRest(ls, lo, hi);
      TilesWithin(ls, lo, hi, 0);
      Assemble(contents, ls[1..], ls[0].hi, hi, feeds[1..], ws[1..]);
      assert contents[lo..hi] == contents[lo..ls[0].hi] + contents[ls[0].hi..hi];
    }
  }

  /** Runs one leaf: turns the handle into a folder, consumes `items` in order and
      completes. The leaf succeeds exactly when it is fed as many items as it owns
      slots; only then does the counter grow, by that number. Whatever happens, the
      slots it reached hold the items in order, the slots it did not reach keep their
      old contents, and no slot outside it changes. */
  method RunLeaf<T>(leaf: CollectConsumer<T>, items: seq<T>) returns (r: Outcome)
    requires leaf.Valid()
    modifies leaf.target, leaf.writes
    ensures r.Pass? <==> |items| == leaf.Len()
    ensures r.Pass? ==> leaf.target[leaf.lo..leaf.hi] == items
    ensures |items| > leaf.Len() ==> r == Fail(TooManyValues)
    ensures |items| < leaf.Len() ==> r == Fail(TooFewValues)
    ensures r.Pass? ==> leaf.writes.count == old(leaf.writes.count) + leaf.Len()
    ensures r.Fail? ==> leaf.writes.count == old(leaf.writes.count)
    ensures forall k :: 0 <= k < |items| && k < leaf.Len() ==> leaf.target[leaf.lo + k] == items[k]
    ensures forall k :: leaf.lo + |items| <= k < leaf.hi ==> leaf.target[k] == old(leaf.target[k])
    ensures forall k :: 0 <= k < leaf.target.Length && !(leaf.lo <= k < leaf.hi) ==>
              leaf.target[k] == old(leaf.target[k])
  {
    var folder := new CollectFolder.IntoFolder(leaf);
    var i := 0;
    while i < |items|
      invariant i <= |items| && i <= leaf.Len()
      invariant folder.Valid()
      invariant folder.target == leaf.target && folder.globalWrites == leaf.writes
      invariant folder.start == leaf.lo && folder.end == leaf.hi
      invariant folder.cursor == leaf.lo + i
      invariant folder.Consumed == items[..i]
      invariant leaf.writes.count == old(leaf.writes.count)
      invariant forall k :: leaf.lo + i <= k < leaf.hi ==> leaf.target[k] == old(leaf.target[k])
      invariant forall k :: 0 <= k < leaf.target.Length && !(leaf.lo <= k < leaf.hi) ==>
                  leaf.target[k] == old(leaf.target[k])
    {
      r := folder.Consume(items[i]);
      if r.Fail? {
        return;
      }
      i := i + 1;
    }
    r := folder.Complete();
  }

  /** A schedule runs every one of `count` leaves exactly once, in any order. */
  ghost predicate IsSchedule(order: seq<nat>, count: nat) {
    (forall i :: 0 <= i < |order| ==> order[i] < count) &&
    (forall m :: 0 <= m < count ==> m in order) &&
    (forall i, j :: 0 <= i < j < |order| ==> order[i] != order[j])
  }

  /** Number of initialized slots in a bitmap; at most its length. */
  function Count(bits: seq<bool>): (c: nat)
    ensures c <= |bits|
  {
    if bits == [] then 0 else (if bits[0] then 1 else 0) + Count(bits[1..])
  }

  /** A bitmap with every slot initialized counts its whole length. */
  lemma {:induction false} CountAll(bits: seq<bool>)
    requires forall k :: 0 <= k < |bits| ==> bits[k]
    ensures Count(bits) == |bits|
  {
    if bits != [] {
      assert forall k :: 0 <= k < |bits[1..]| ==> bits[1..][k] == bits[k + 1];
      CountAll(bits[1..]);
    }
  }

  /** A bitmap with no slot initialized counts zero. */
  lemma {:induction false} CountNone(bits: seq<bool>)
    requires forall k :: 0 <= k < |bits| ==> !bits[k]
    ensures Count(bits) == 0
  {
    if bits != [] {
      assert forall k :: 0 <= k < |bits[1..]| ==> bits[1..][k] == bits[k + 1];
      CountNone(bits[1..]);
    }
  }

  /** A bitmap with an uninitialized slot counts less than its length. */
  lemma {:induction false} CountMissing(bits: seq<bool>, k: nat)
    requires k < |bits| && !bits[k]
    ensures Count(bits) < |bits|
  {
    if k > 0 {
      assert bits[1..][k - 1] == bits[k];
      CountMissing(bits[1..], k - 1);
    }
  }

  /** Marks the slots [lo, hi) as initialized, and no other slot. */
  function Mark(bits: seq<bool>, lo: nat, hi: nat): (r: seq<bool>)
    requires lo <= hi <= |bits|
    ensures |r| == |bits|
    ensures forall k :: 0 <= k < |r| ==> r[k] == (bits[k] || lo <= k < hi)
  {
    bits[..lo] + seq(hi - lo, _ => true) + bits[hi..]
  }

  /** Marking slots none of which was marked raises the count by their number. */
  lemma {:induction false} MarkCount(bits: seq<bool>, lo: nat, hi: nat)
    requires lo <= hi <= |bits|
    requires forall k :: lo <= k < hi ==> !bits[k]
    ensures Count(Mark(bits, lo, hi)) == Count(bits) + (hi - lo)
    decreases |bits|
  {
    if lo == hi {
      assert Mark(bits, lo, hi) == bits;
    } else {
      var marked := Mark(bits, lo, hi);
      var lo', hi' := if lo == 0 then 0 else lo - 1, hi - 1;
      assert marked[1..] == Mark(bits[1..], lo', hi');
      MarkCount(bits[1..], lo', hi');
    }
  }

  /** Every slot of handle `c` is marked initialized. */
  ghost predicate AllMarked<T>(bits: seq<bool>, c: CollectConsumer<T>) {
    c.hi <= |bits| && forall k :: c.lo <= k < c.hi ==> bits[k]
  }

  /** No slot of handle `c` is marked initialized. */
  ghost predicate NoneMarked<T>(bits: seq<bool>, c: CollectConsumer<T>) {
    forall k :: c.lo <= k < c.hi && 0 <= k < |bits| ==> !bits[k]
  }

  /** What the leaves run so far (`done`) have achieved: a leaf that was run and fed
      exactly its width holds its items in `contents` and its slots are marked in
      `init`; no slot of any other leaf is marked. */
  ghost predicate Accounted<T>(contents: seq<T>, leaves: seq<CollectConsumer<T>>, feeds: seq<seq<T>>,
                               ws: seq<nat>, done: set<nat>, init: seq<bool>) {
    |feeds| == |leaves| && |ws| == |leaves| &&
    (forall m :: 0 <= m < |leaves| && m in done && |feeds[m]| == ws[m] ==>
       AllMarked(init, leaves[m]) && Placed(contents, leaves[m], feeds[m])) &&
    (forall m :: 0 <= m < |leaves| && !(m in done && |feeds[m]| == ws[m]) ==>
       NoneMarked(init, leaves[m]))
  }

  /** Running leaf `m0` changes only its own slots, so every other leaf keeps what
      it holds. */
  lemma OthersKept<T>(before: seq<T>, after: seq<T>, leaves: seq<CollectConsumer<T>>, n: nat,
                      feeds: seq<seq<T>>, m0: nat)
    requires Tiles(leaves, 0, n) && m0 < |leaves| && |feeds| == |leaves|
    requires |after| == |before|
    requires forall k :: 0 <= k < |before| && !(leaves[m0].lo <= k < leaves[m0].hi) ==> after[k] == before[k]
    ensures forall m :: 0 <= m < |leaves| && m != m0 && Placed(before, leaves[m], feeds[m]) ==>
              Placed(after, leaves[m], feeds[m])
  {
    forall m | 0 <= m < |leaves| && m != m0 && Placed(before, leaves[m], feeds[m])
      ensures Placed(after, leaves[m], feeds[m])
    {
      TilesOrdered(leaves, 0, n, if m < m0 then m else m0, if m < m0 then m0 else m);
      assert after[leaves[m].lo..leaves[m].hi] == before[leaves[m].lo..leaves[m].hi];
    }
  }

  /** A leaf that faulted marks nothing and keeps the account. */
  lemma AccountFailed<T>(before: seq<T>, after: seq<T>, leaves: seq<CollectConsumer<T>>, n: nat,
                         feeds: seq<seq<T>>, ws: seq<nat>, done: set<nat>, init: seq<bool>, m0: nat)
    requires Tiles(leaves, 0, n) && Accounted(before, leaves, feeds, ws, done, init)
    requires m0 < |leaves| && m0 !in done && |feeds[m0]| != ws[m0]
    requires |after| == |before|
    requires forall k :: 0 <= k < |before| && !(leaves[m0].lo <= k < leaves[m0].hi) ==> after[k] == before[k]
    ensures Accounted(after, leaves, feeds, ws, done + {m0}, init)
  {
    OthersKept(before, after, leaves, n, feeds, m0);
  }

  /** A leaf that completed marks its own slots, none of which was marked before,
      and keeps the account. */
  lemma AccountCompleted<T>(before: seq<T>, after: seq<T>, leaves: seq<CollectConsumer<T>>, n: nat,
                            feeds: seq<seq<T>>, ws: seq<nat>, done: set<nat>, init: seq<bool>, m0: nat)
    requires Tiles(leaves, 0, n) && Accounted(before, leaves, feeds, ws, done, init) && |init| == n
    requires m0 < |leaves| && m0 !in done && |feeds[m0]| == ws[m0]
    requires |after| == |before|
    requires forall k :: 0 <= k < |before| && !(leaves[m0].lo <= k < leaves[m0].hi) ==> after[k] == before[k]
    requires Placed(after, leaves[m0], feeds[m0])
    ensures leaves[m0].hi <= n && forall k :: leaves[m0].lo <= k < leaves[m0].hi ==> !init[k]
    ensures Accounted(after, leaves, feeds, ws, done + {m0}, Mark(init, leaves[m0].lo, leaves[m0].hi))
  {
    OthersKept(before, after, leaves, n, feeds, m0);
    TilesWithin(leaves, 0, n, m0);
    var marked := Mark(init, leaves[m0].lo, leaves[m0].hi);
    forall m | 0 <= m < |leaves| && m != m0 && !(m in done && |feeds[m]| == ws[m])
      ensures NoneMarked(marked, leaves[m])
    {
      TilesOrdered(leaves, 0, n, if m < m0 then m else m0, if m < m0 then m0 else m);
    }
  }

  /** Once every leaf has run: the marked slots number at most `n`; they number
      exactly `n` when and only when every non-empty leaf was fed exactly its width,
      and then the buffer is the layout of the feeds. */
  lemma Conclude<T>(contents: seq<T>, leaves: seq<CollectConsumer<T>>, n: nat,
                    feeds: seq<seq<T>>, ws: seq<nat>, done: set<nat>, init: seq<bool>)
    requires Tiles(leaves, 0, n) && |contents| == n && |init| == n
    requires Accounted(contents, leaves, feeds, ws, done, init)
    requires forall j :: 0 <= j < |leaves| ==> leaves[j].Len() == ws[j] && j in done
    ensures Count(init) == n <==> FedExactly(feeds, ws)
    ensures FedExactly(feeds, ws) ==> contents == Layout(feeds, ws)
  {
    if FedExactly(feeds, ws) {
      forall k | 0 <= k < n
        ensures init[k]
      {
        var m := TilesCover(leaves, 0, n, k);
      }
      CountAll(init);
      forall m | 0 <= m < |leaves|
        ensures Placed(contents, leaves[m], feeds[m][..ws[m]])
      {
        TilesWithin(leaves, 0, n, m);
        if ws[m] > 0 {
          assert feeds[m][..ws[m]] == feeds[m];
        }
      }
      Assemble(contents, leaves, 0, n, feeds, ws);
      assert contents[0..n] == contents;
    } else {
      var m :| 0 <= m < |ws| && ws[m] > 0 && |feeds[m]| != ws[m];
      TilesWithin(leaves, 0, n, m);
      CountMissing(init, leaves[m].lo);
    }
  }

  /** A leaf about to run has not run before. */
  lemma ScheduleRunsOnce(order: seq<nat>, count: nat, i: nat, done: set<nat>)
    requires IsSchedule(order, count) && i < |order|
    requires done == set j | 0 <= j < i :: order[j]
    ensures order[i] !in done
  {
  }

  /** After the whole schedule, every leaf has run. */
  lemma ScheduleRunsAll(order: seq<nat>, count: nat, done: set<nat>)
    requires IsSchedule(order, count)
    requires done == set j | 0 <= j < |order| :: order[j]
    ensures forall m :: 0 <= m < count ==> m in done
  {
    forall m | 0 <= m < count
      ensures m in done
    {
      assert m in order;
      var i :| 0 <= i < |order| && order[i] == m;
    }
  }

  /** Runs the leaves one after another in the order `order`, feeding leaf `m` the
      items `feeds[m]`; a leaf that faults aborts alone. Reports whether any leaf
      faulted, which is whether any leaf was fed a number of items other than its
      width. Returns, as ghost state, which slots completed leaves have initialized:
      the counter is their number. */
  method RunSchedule<T>(leaves: seq<CollectConsumer<T>>, n: nat, order: seq<nat>, feeds: seq<seq<T>>,
                        ghost ws: seq<nat>, buf: array<T>, writes: WriteCounter)
    returns (faulted: bool, ghost init: seq<bool>)
    requires Tiles(leaves, 0, n) && buf.Length == n && writes.count == 0
    requires |feeds| == |leaves| && |ws| == |leaves| && IsSchedule(order, |leaves|)
    requires forall j :: 0 <= j < |leaves| ==>
               leaves[j].target == buf && leaves[j].writes == writes && leaves[j].Len() == ws[j]
    modifies buf, writes
    ensures faulted <==> exists i :: 0 <= i < |order| && |feeds[order[i]]| != ws[order[i]]
    ensures |init| == n && writes.count == Count(init)
    ensures Accounted(buf[..], leaves, feeds, ws, set j | 0 <= j < |order| :: order[j], init)
  {
    // the leaves run so far
    ghost var done: set<nat> := {};
    faulted := false;
    init := seq(n, _ => false);
    CountNone(init);
    for i := 0 to |order|
      invariant done == set j | 0 <= j < i :: order[j]
      invariant faulted <==> exists j :: 0 <= j < i && |feeds[order[j]]| != ws[order[j]]
      invariant |init| == n
      invariant writes.count == Count(init)
      invariant Accounted(buf[..], leaves, feeds, ws, done, init)
    {
      var m0 := order[i];
      var leaf := leaves[m0];
      ghost var before := buf[..];
      ScheduleRunsOnce(order, |leaves|, i, done);
      var r := RunLeaf(leaf, feeds[m0]);
      if r.Pass? {
        AccountCompleted(before, buf[..], leaves, n, feeds, ws, done, init, m0);
        MarkCount(init, leaf.lo, leaf.hi);
        init := Mark(init, leaf.lo, leaf.hi);
      } else {
        AccountFailed(before, buf[..], leaves, n, feeds, ws, done, init, m0);
        faulted := true;
      }
      done := done + {m0};
    }
  }

  /** Some step of the schedule faults exactly when some leaf is fed a wrong number of items. */
  lemma FaultedSomewhere(order: seq<nat>, count: nat, lens: seq<nat>, ws: seq<nat>)
    requires IsSchedule(order, count) && |lens| == count && |ws| == count
    ensures (exists i :: 0 <= i < |order| && lens[order[i]] != ws[order[i]]) <==>
            (exists m :: 0 <= m < count && lens[m] != ws[m])
  {
    if m :| 0 <= m < count && lens[m] != ws[m] {
      assert m in order;
      var i :| 0 <= i < |order| && order[i] == m;
    }
  }

  /** Collects into a fresh buffer of `n` slots, split as `tree` says, running the
      leaves in the order `order` and feeding leaf `m` the items `feeds[m]`. Returns
      the buffer, the counter, and whether some leaf faulted (a fault fails the whole
      collection). The collection faults exactly when some leaf was fed a number of
      items other than its width. The counter never exceeds `n`; it reaches `n`
      exactly when every non-empty leaf was fed exactly its width, and then the
      buffer holds every leaf's items in place. It may reach `n` although a leaf
      without slots faulted. */
  method Collect<T(0)>(n: nat, tree: SplitTree, order: seq<nat>, feeds: seq<seq<T>>)
    returns (out: seq<T>, total: nat, faulted: bool)
    requires ValidFor(tree, n)
    requires IsSchedule(order, LeafCount(tree))
    requires |feeds| == LeafCount(tree)
    ensures faulted <==> exists m :: 0 <= m < |feeds| && |feeds[m]| != Widths(tree, n)[m]
    ensures !faulted ==> total == n
    ensures |out| == n
    ensures total <= n
    ensures total == n <==> FedExactly(feeds, Widths(tree, n))
    ensures total == n ==> out == Layout(feeds, Widths(tree, n))
  {
    var buf := new T[n];
    var writes := new WriteCounter(0);
    var root := CollectConsumer.New(writes, buf, 0, n);
    var leaves := Leaves(root, tree);
    ghost var ws := Widths(tree, n);
    ghost var init;
    faulted, init := RunSchedule(leaves, n, order, feeds, ws, buf, writes);
    ghost var done := set j | 0 <= j < |order| :: order[j];
    ScheduleRunsAll(order, |leaves|, done);
    FaultedSomewhere(order, |leaves|, seq(|feeds|, m requires 0 <= m < |feeds| => |feeds[m]|), ws);
    Conclude(buf[..], leaves, n, feeds, ws, done, init);
    out, total := buf[..], writes.count;
  }

  /** With an exact-length producer split at the same points as the buffer, every
      split tree and every order of running the leaves fills the buffer with the
      items in producer order and brings the counter to the buffer length. */
  method CollectExact<T(0)>(items: seq<T>, tree: SplitTree, order: seq<nat>)
    returns (out: seq<T>, total: nat, faulted: bool)
    requires ValidFor(tree, |items|)
    requires IsSchedule(order, LeafCount(tree))
    ensures out == items
    ensures total == |items|
    ensures !faulted
  {
    var ws := Widths(tree, |items|);
    out, total, faulted := Collect(|items|, tree, order, Chop(items, ws));
  }

  /** Items 10, 20, 30, 40 collected by a single writer over the whole buffer. */
  method SingleWriterExample() returns (out: seq<int>, total: nat)
    ensures out == [10, 20, 30, 40] && total == 4
  {
    var faulted;
    out, total, faulted := CollectExact([10, 20, 30, 40], Leaf, [0]);
  }

  /** The same items with the buffer split at index 2, the right leaf finishing first. */
  method SplitAtTwoExample() returns (out: seq<int>, total: nat)
    ensures out == [10, 20, 30, 40] && total == 4
  {
    var faulted;
    out, total, faulted := CollectExact([10, 20, 30, 40], Split(2, Leaf, Leaf), [1, 0]);
  }

  /** A writer over three slots fed two items: completion faults and the counter stays 0. */
  method UnderProductionExample() returns (r: Outcome, total: nat)
    ensures r == Fail(TooFewValues) && total == 0
    ensures r.fault.Message() == "too few values pushed to consumer"
  {
    var buf := new int[3];
    var writes := new WriteCounter(0);
    r := RunLeaf(CollectConsumer.New(writes, buf, 0, 3), [10, 20]);
    total := writes.count;
  }

  /** A writer over three slots fed four items: the fourth consume faults and the
      counter stays 0, although all three slots were written. */
  method OverProductionExample() returns (r: Outcome, total: nat, out: seq<int>)
    ensures r == Fail(TooManyValues) && total == 0 && out == [10, 20, 30]
    ensures r.fault.Message() == "too many values pushed to consumer"
  {
    var buf := new int[3];
    var writes := new WriteCounter(0);
    var leaf := CollectConsumer.New(writes, buf, 0, 3);
    var items := [10, 20, 30, 40];
    r := RunLeaf(leaf, items);
    assert buf[0] == items[0] && buf[1] == items[1] && buf[2] == items[2];
    total := writes.count;
    out := buf[..];
  }

  /** A buffer of three slots split at 1: the right leaf is fed one item short. It
      alone faults; the collection fails and the counter stays below 3, so the buffer
      is never handed out. */
  method SiblingFaultExample() returns (total: nat, faulted: bool)
    ensures faulted && total < 3
  {
    var out;
    out, total, faulted := Collect(3, Split(1, Leaf, Leaf), [0, 1], [[10], [20]]);
  }

  /** A buffer of two slots split at 0: the empty left leaf is fed one item and
      faults with "too many values", so the collection fails; the right leaf fills
      both slots, so the counter still reaches 2. */
  method EmptyLeafFaultExample() returns (out: seq<int>, total: nat, faulted: bool)
    ensures faulted && total == 2 && out == [20, 30]
  {
    out, total, faulted := Collect(2, Split(0, Leaf, Leaf), [0, 1], [[10], [20, 30]]);
  }
}
