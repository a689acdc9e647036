/** The fork-join side of collection, seen sequentially: a split tree records
    where the scheduler called `split_at`, and its leaves are the handles that
    were turned into folders. */
module Splitting {
  import opened Consumer

  /** `Split(index, left, right)` splits a handle at `index`, then treats the
      two halves recursively; `Leaf` stops splitting. */
  datatype SplitTree = Leaf | Split(index: nat, left: SplitTree, right: SplitTree)

  /** Every split point of `t` lies within the handle it splits, for a root of length `len`. */
  ghost predicate ValidFor(t: SplitTree, len: nat) {
    match t
    case Leaf => true
    case Split(i, l, r) => i <= len && ValidFor(l, i) && ValidFor(r, len - i)
  }

  function LeafCount(t: SplitTree): nat {
    match t
    case Leaf => 1
    case Split(_, l, r) => LeafCount(l) + LeafCount(r)
  }

  function Sum(ws: seq<nat>): nat {
    if ws == [] then 0 else ws[0] + Sum(ws[1..])
  }

  lemma {:induction false} SumAppend(a: seq<nat>, b: seq<nat>)
    ensures Sum(a + b) == Sum(a) + Sum(b)
  {
    if a != [] {
      assert (a + b)[1..] == a[1..] + b;
      SumAppend(a[1..], b);
    } else {
      assert a + b == b;
    }
  }

  /** The lengths of the leaves of `t`, left to right, for a root of length `len`;
      they add up to the root length. */
  function Widths(t: SplitTree, len: nat): (ws: seq<nat>)
    requires ValidFor(t, len)
    ensures |ws| == LeafCount(t)
    ensures Sum(ws) == len
  {
    match t
    case Leaf => [len]
    case Split(i, l, r) =>
      SumAppend(Widths(l, i), Widths(r, len - i));
      Widths(l, i) + Widths(r, len - i)
  }

  /** `ls` are valid handles lying end to end from `lo` to `hi`. */
  ghost predicate Tiles<T>(ls: seq<CollectConsumer<T>>, lo: nat, hi: nat) {
    |ls| > 0 && ls[0].lo == lo && ls[|ls| - 1].hi == hi &&
    (forall j :: 0 <= j < |ls| ==> ls[j].Valid()) &&
    (forall i, j :: 0 <= i && j == i + 1 && j < |ls| ==> ls[i].hi == ls[j].lo)
  }

  /** Tiles of [lo, mid) followed by tiles of [mid, hi) tile [lo, hi). */
  lemma TilesAppend<T>(a: seq<CollectConsumer<T>>, b: seq<CollectConsumer<T>>, lo: nat, mid: nat, hi: nat)
    requires Tiles(a, lo, mid) && Tiles(b, mid, hi)
    ensures Tiles(a + b, lo, hi)
  {
  }

  /** The handles that the splits of `t` produce from `c`, left to right. They
      tile `c`'s range, keep its buffer and counter, and have the widths `Widths`. */
  function Leaves<T>(c: CollectConsumer<T>, t: SplitTree): (ls: seq<CollectConsumer<T>>)
    requires c.Valid() && ValidFor(t, c.Len())
    ensures |ls| == LeafCount(t)
    ensures Tiles(ls, c.lo, c.hi)
    ensures forall j :: 0 <= j < |ls| ==> ls[j].writes == c.writes && ls[j].target == c.target
    ensures forall j :: 0 <= j < |ls| ==> ls[j].Len() == Widths(t, c.Len())[j]
    decreases t
  {
    match t
    case Leaf => [c]
    case Split(i, l, r) =>
      var halves := c.SplitAt(i);
      var left, right := Leaves(halves.0, l), Leaves(halves.1, r);
      TilesAppend(left, right, c.lo, halves.0.hi, c.hi);
      left + right
  }

  /** Tiles come in order: an earlier tile ends before a later one starts. */
  lemma {:induction false} TilesOrdered<T>(ls: seq<CollectConsumer<T>>, lo: nat, hi: nat, i: nat, j: nat)
    requires Tiles(ls, lo, hi) && i < j < |ls|
    ensures ls[i].hi <= ls[j].lo
    decreases j - i
  {
    if i + 1 < j {
      TilesOrdered(ls, lo, hi, i, j - 1);
      assert ls[j - 1].hi == ls[j].lo;
    } else {
      assert ls[i].hi == ls[i + 1].lo;
    }
  }

  /** Every tile lies within [lo, hi). */
  lemma TilesWithin<T>(ls: seq<CollectConsumer<T>>, lo: nat, hi: nat, j: nat)
    requires Tiles(ls, lo, hi) && j < |ls|
    ensures lo <= ls[j].lo && ls[j].hi <= hi
  {
    if 0 < j {
      TilesOrdered(ls, lo, hi, 0, j);
    }
    if j < |ls| - 1 {
      TilesOrdered(ls, lo, hi, j, |ls| - 1);
    }
  }

  /** Two different tiles own no common slot. */
  lemma TilesDisjoint<T>(ls: seq<CollectConsumer<T>>, lo: nat, hi: nat, i: nat, j: nat)
    requires Tiles(ls, lo, hi) && i < |ls| && j < |ls| && i != j
    ensures ls[i].Slots() * ls[j].Slots() == {}
  {
    if i < j {
      TilesOrdered(ls, lo, hi, i, j);
    } else {
      TilesOrdered(ls, lo, hi, j, i);
    }
  }

  /** Dropping the first of several tiles leaves tiles of the rest of the range. */
  lemma TilesRest<T>(ls: seq<CollectConsumer<T>>, lo: nat, hi: nat)
    requires Tiles(ls, lo, hi) && |ls| > 1
    ensures Tiles(ls[1..], ls[0].hi, hi)
  {
  }

  /** Every slot of [lo, hi) belongs to some tile, here the `m`-th. */
  lemma {:induction false} TilesCover<T>(ls: seq<CollectConsumer<T>>, lo: nat, hi: nat, k: int) returns (m: nat)
    requires Tiles(ls, lo, hi) && lo <= k < hi
    ensures m < |ls| && ls[m].lo <= k < ls[m].hi
    decreases |ls|
  {
    if k < ls[0].hi {
      m := 0;
    } else {
      TilesRest(ls, lo, hi);
      var m' := TilesCover(ls[1..], ls[0].hi, hi, k);
      m := m' + 1;
    }
  }
}
