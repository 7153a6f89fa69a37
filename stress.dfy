/** The tester's shared mutable state and the operations on it: building the
    slot array, one increment, one burst, one worker's run of bursts, and a
    round of workers followed by validation. Each atomic fetch-and-add is one
    sequential step, and the workers of a round run one after another. */
module Stress {
  import opened Slots

  /** What the end-of-round check decides. */
  datatype RoundOutcome =
    | Passed(iterations: usize)
    | AggregateMismatch(total: nat, expected: nat)

  /** The indices one burst draws: ITERATION_COUNT of them, each in [0, len). */
  ghost predicate WellFormedBurst(draws: seq<nat>, len: nat)
  {
    |draws| == ITERATION_COUNT && forall j :: 0 <= j < |draws| ==> draws[j] < len
  }

  class Tester {
    /** The slot array: allocated once, never resized. */
    const mem: array<Slot>
    /** The global iteration counter: one per completed burst, never reset. */
    var iterations: usize

    /** Every `me` is its slot's index, the counters sum to iterations × N, and
        that sum fits in a usize. */
    ghost predicate Valid()
      reads this, mem
    {
      && Identity(mem[..])
      && Total(mem[..]) == iterations as int * ITERATION_COUNT
      && iterations as int * ITERATION_COUNT < USIZE_MODULUS
    }

    /** Allocates SlotCount(blockSize) slots and pushes, at every position idx,
        a slot with counter 0 and `me` equal to idx; the iteration counter starts at 0. */
    constructor (blockSize: usize)
      ensures fresh(mem)
      ensures mem.Length == SlotCount(blockSize)
      ensures forall i :: 0 <= i < mem.Length ==> mem[i] == Slot(0, AsIndexType(i))
      ensures iterations == 0
      ensures Valid()
    {
      var n := SlotCount(blockSize);
      var a := new Slot[n];
      for idx := 0 to n
        invariant forall i :: 0 <= i < idx ==> a[i] == Slot(0, AsIndexType(i))
      {
        a[idx] := Slot(0, AsIndexType(idx));
      }
      TotalZero(a[..]);
      mem := a;
      iterations := 0;
    }

    /** One inner step with the drawn index idx: increments mem[idx]'s counter
        (wrapping at 2^32) and reports whether mem[idx].me equals idx as u32.
        No other slot and no `me` field changes. */
    method Step(idx: nat) returns (ok: bool)
      requires idx < mem.Length
      modifies mem
      ensures mem[idx] == old(mem[idx]).(counter := WrappingIncrement(old(mem[idx].counter)))
      ensures forall i :: 0 <= i < mem.Length && i != idx ==> mem[i] == old(mem[i])
      ensures mem[..] == old(mem[..])[idx := mem[idx]]
      ensures ok <==> mem[idx].me == AsIndexType(idx)
    {
      mem[idx] := mem[idx].(counter := WrappingIncrement(mem[idx].counter));
      ok := mem[idx].me == AsIndexType(idx);
    }

    /** One pass of the worker's loop: bumps the iteration counter, then
        increments the slot of every draw, checking each slot's identity.
        The identity check never fails, and the counters' sum is again
        iterations × N. */
    method Burst(draws: seq<nat>)
      requires Valid()
      requires WellFormedBurst(draws, mem.Length)
      requires Fits(mem[..], draws)
      requires (iterations as int + 1) * ITERATION_COUNT < USIZE_MODULUS
      modifies this, mem
      ensures Valid()
      ensures iterations as int == old(iterations) as int + 1
      ensures mem[..] == Bumped(old(mem[..]), draws)
    {
      ghost var start := mem[..];
      assert iterations as int + 1 < USIZE_MODULUS;
      iterations := ((iterations as int + 1) % USIZE_MODULUS) as usize;
      BumpedEmpty(start);
      for k := 0 to ITERATION_COUNT
        invariant iterations as int == old(iterations) as int + 1
        invariant mem[..] == Bumped(start, draws[..k])
        invariant Identity(mem[..])
        invariant Total(mem[..]) == (iterations as int - 1) * ITERATION_COUNT + k
      {
        var idx := draws[k];
        ghost var before := mem[..];
        var ok := Step(idx);
        assert ok;
        BurstStep(start, draws, k, before, mem[..]);
      }
      assert draws[..ITERATION_COUNT] == draws;
    }

    /** One worker: runs bursts until the deadline, here one burst for every
        element of `bursts`. */
    method Worker(bursts: seq<seq<nat>>)
      requires Valid()
      requires forall b :: 0 <= b < |bursts| ==> WellFormedBurst(bursts[b], mem.Length)
      requires Fits(mem[..], Flatten(bursts))
      requires (iterations as int + |bursts|) * ITERATION_COUNT < USIZE_MODULUS
      modifies this, mem
      ensures Valid()
      ensures iterations as int == old(iterations) as int + |bursts|
      ensures mem[..] == Bumped(old(mem[..]), Flatten(bursts))
    {
      ghost var start := mem[..];
      ghost var it0 := iterations;
      BumpedEmpty(start);
      var b := 0;
      while b < |bursts|
        invariant 0 <= b <= |bursts|
        invariant Valid()
        invariant iterations as int == it0 as int + b
        invariant mem[..] == Bumped(start, Flatten(bursts[..b]))
      {
        WorkerStep(start, bursts, b, mem[..]);
        Burst(bursts[b]);
        b := b + 1;
      }
      assert bursts[..|bursts|] == bursts;
    }

    /** One round: every worker runs its bursts (workers[w] for worker w),
        then, after the join, the counters are summed and checked. */
    method Round(workers: seq<seq<seq<nat>>>) returns (outcome: RoundOutcome)
      requires Valid()
      requires forall w, b :: 0 <= w < |workers| && 0 <= b < |workers[w]| ==>
                 WellFormedBurst(workers[w][b], mem.Length)
      requires Fits(mem[..], Flatten(Flatten(workers)))
      requires (iterations as int + |Flatten(workers)|) * ITERATION_COUNT < USIZE_MODULUS
      modifies this, mem
      ensures Valid()
      ensures iterations as int == old(iterations) as int + |Flatten(workers)|
      ensures mem[..] == Bumped(old(mem[..]), Flatten(Flatten(workers)))
      ensures outcome == Passed(iterations)
    {
      ghost var start := mem[..];
      ghost var it0 := iterations;
      BumpedEmpty(start);
      var w := 0;
      while w < |workers|
        invariant 0 <= w <= |workers|
        invariant Valid()
        invariant iterations as int == it0 as int + |Flatten(workers[..w])|
        invariant mem[..] == Bumped(start, Flatten(Flatten(workers[..w])))
      {
        RoundStep(start, workers, w, mem[..]);
        Worker(workers[w]);
        w := w + 1;
      }
      assert workers[..|workers|] == workers;
      outcome := Validate();
    }

    /** The end-of-round check: the counters' sum must equal iterations × N.
        A pass means the sum matched; whenever the state is valid it passes. */
    function Validate(): (r: RoundOutcome)
      reads this, mem
      ensures r.Passed? <==> Total(mem[..]) == iterations as int * ITERATION_COUNT
      ensures r.Passed? ==> r.iterations == iterations
      ensures r.AggregateMismatch? ==>
                r.total == Total(mem[..]) && r.expected == iterations as int * ITERATION_COUNT
      ensures Valid() ==> r == Passed(iterations)
    {
      var total := Total(mem[..]);
      var expected := iterations as int * ITERATION_COUNT;
      if total == expected then Passed(iterations) else AggregateMismatch(total, expected)
    }
  }
}
