/** The shared progress counter: the `AtomicUsize` that every folder of one
    collect operation adds its local write count to. Only `fetch_add` is used;
    memory ordering is irrelevant in this sequential model. */
module Atomics {

  class WriteCounter {
    var count: nat

    constructor (initial: nat)
      ensures count == initial
    {
      count := initial;
    }

    /** Adds `n` and returns the value held before. */
    method FetchAdd(n: nat) returns (previous: nat)
      modifies this
      ensures previous == old(count)
      ensures count == old(count) + n
    {
      previous := count;
      count := count + n;
    }
  }
}
