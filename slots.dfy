/** The slot array of the memory-stress tester, as values: the machine integer
    types it uses, one Slot, the slot count computed from the block size, the
    validation total, and the effect of a sequence of counter increments. */
module Slots {

  const U32_MODULUS: int := 0x1_0000_0000
  const U32_MAX: int := 0xFFFF_FFFF
  /** usize on a 64-bit target. */
  const USIZE_MODULUS: int := 0x1_0000_0000_0000_0000

  newtype u32 = x: int | 0 <= x < 0x1_0000_0000
  newtype usize = x: int | 0 <= x < 0x1_0000_0000_0000_0000

  /** Number of slot increments in one burst (2^20). */
  const ITERATION_COUNT: nat := 0x10_0000
  /** size_of::<Slot>(): an AtomicU32 and a u32, four bytes each. */
  const SLOT_SIZE: nat := 8

  /** One slot: the atomic counter and the immutable self-index `me`. */
  datatype Slot = Slot(counter: u32, me: u32)

  /** `idx as u32`: keeps the low 32 bits of the index. */
  function AsIndexType(idx: nat): (r: u32)
    ensures idx < U32_MODULUS ==> r as int == idx
    ensures r == 0 <==> idx % U32_MODULUS == 0
  {
    (idx % U32_MODULUS) as u32
  }

  /** `fetch_add(1)` on an AtomicU32, which wraps around at 2^32. */
  function WrappingIncrement(c: u32): u32
  {
    if c as int == U32_MAX then 0 else c + 1
  }

  /** `block_size << 30` on a 64-bit usize: the bits shifted out are lost. */
  function BlockBytes(blockSize: usize): (r: usize)
    ensures r as int == (blockSize as int % 0x4_0000_0000) * 0x4000_0000
  {
    ShiftWraps(blockSize as int);
    ((blockSize as int * 0x4000_0000) % USIZE_MODULUS) as usize
  }

  lemma ShiftWraps(b: int)
    requires 0 <= b
    ensures (b * 0x4000_0000) % USIZE_MODULUS == (b % 0x4_0000_0000) * 0x4000_0000
  {
    var q, m := b / 0x4_0000_0000, b % 0x4_0000_0000;
    assert b == q * 0x4_0000_0000 + m;
    assert b * 0x4000_0000 == q * USIZE_MODULUS + m * 0x4000_0000;
    assert 0 <= m * 0x4000_0000 < USIZE_MODULUS;
  }

  /** `(block_size << 30) / size_of::<Slot>()`: the number of slots allocated.
      The shift wraps, so only the block size modulo 2^34 matters; below that
      every GiB holds exactly 2^27 slots. A block size of 0 (or any multiple of
      2^34) yields an empty slot array. */
  function SlotCount(blockSize: usize): (r: nat)
    ensures r == (blockSize as int % 0x4_0000_0000) * 0x800_0000
    ensures blockSize as int < 0x4_0000_0000 ==> r == blockSize as int * 0x800_0000
    ensures r == 0 <==> blockSize as int % 0x4_0000_0000 == 0
    ensures r * SLOT_SIZE <= blockSize as int * 0x4000_0000
    ensures r * SLOT_SIZE < USIZE_MODULUS
  {
    BlockBytes(blockSize) as int / SLOT_SIZE
  }

  /** Every slot's `me` equals its position (truncated to u32). */
  ghost predicate Identity(slots: seq<Slot>)
  {
    forall i :: 0 <= i < |slots| ==> slots[i].me == AsIndexType(i)
  }

  /** The end-of-round validation total: the sum of every slot counter. */
  function Total(slots: seq<Slot>): (r: nat)
    ensures r <= |slots| * U32_MAX
  {
    if slots == [] then 0 else slots[0].counter as int + Total(slots[1..])
  }

  lemma {:induction false} TotalZero(slots: seq<Slot>)
    requires forall i :: 0 <= i < |slots| ==> slots[i].counter == 0
    ensures Total(slots) == 0
  {
    if slots != [] {
      TotalZero(slots[1..]);
    }
  }

  /** Incrementing one counter that does not wrap adds exactly one to the total. */
  lemma {:induction false} TotalIncrement(slots: seq<Slot>, i: nat)
    requires i < |slots| && slots[i].counter as int < U32_MAX
    ensures Total(slots[i := slots[i].(counter := WrappingIncrement(slots[i].counter))]) == Total(slots) + 1
  {
    var bumped := slots[i].(counter := WrappingIncrement(slots[i].counter));
    var t := slots[i := bumped];
    if i == 0 {
      assert t[1..] == slots[1..];
    } else {
      TotalIncrement(slots[1..], i - 1);
      assert t[1..] == slots[1..][i - 1 := bumped];
    }
  }

  /** n successive fetch_add(1) on an AtomicU32 that holds c. */
  function WrappingAdd(c: u32, n: nat): u32
  {
    if n == 0 then c else WrappingIncrement(WrappingAdd(c, n - 1))
  }

  /** n increments and then m more are n + m increments. */
  lemma {:induction false} WrappingAddTwice(c: u32, n: nat, m: nat)
    ensures WrappingAdd(WrappingAdd(c, n), m) == WrappingAdd(c, n + m)
  {
    if m != 0 {
      WrappingAddTwice(c, n, m - 1);
    }
  }

  /** Without wrap-around, n increments add exactly n. */
  lemma {:induction false} WrappingAddExact(c: u32, n: nat)
    requires c as int + n <= U32_MAX
    ensures WrappingAdd(c, n) as int == c as int + n
  {
    if n != 0 {
      WrappingAddExact(c, n - 1);
    }
  }

  /** The wrap-around is modular: n increments give (c + n) mod 2^32. */
  lemma {:induction false} WrappingAddModular(c: u32, n: nat)
    ensures WrappingAdd(c, n) as int == (c as int + n) % U32_MODULUS
  {
    if n != 0 {
      WrappingAddModular(c, n - 1);
      var w := WrappingAdd(c, n - 1) as int;
      var q := (c as int + n - 1) / U32_MODULUS;
      assert c as int + n - 1 == q * U32_MODULUS + w;
      if w == U32_MAX {
        assert c as int + n == (q + 1) * U32_MODULUS;
      } else {
        assert c as int + n == q * U32_MODULUS + (w + 1);
      }
    }
  }

  /** No counter wraps when each slot receives the increments `draws` assigns to it. */
  ghost predicate Fits(slots: seq<Slot>, draws: seq<nat>)
  {
    forall i :: 0 <= i < |slots| ==> slots[i].counter as int + multiset(draws)[i] <= U32_MAX
  }

  lemma FitsSub(slots: seq<Slot>, a: seq<nat>, d: seq<nat>)
    requires multiset(a) <= multiset(d) && Fits(slots, d)
    ensures Fits(slots, a)
  {
  }

  /** The slots after one fetch-and-add on slot `draws[j]` for every j: each
      counter has grown by the number of draws of its index (wrapping at
      2^32) and every `me` is left as it was. Only the multiset of draws
      matters, so every order in which the workers' increments interleave
      gives the same slots. */
  ghost function Bumped(slots: seq<Slot>, draws: seq<nat>): (r: seq<Slot>)
    ensures |r| == |slots|
  {
    seq(|slots|, i requires 0 <= i < |slots| =>
      slots[i].(counter := WrappingAdd(slots[i].counter, multiset(draws)[i])))
  }

  lemma BumpedEmpty(slots: seq<Slot>)
    ensures Bumped(slots, []) == slots
  {
  }

  /** One more draw, of slot x, is one wrapping increment of slot x and
      changes nothing else; without wrap-around it adds exactly one. */
  lemma BumpedSnoc(slots: seq<Slot>, d: seq<nat>, x: nat)
    requires x < |slots|
    ensures Bumped(slots, d + [x])
         == Bumped(slots, d)[x := Bumped(slots, d)[x].(counter := WrappingIncrement(Bumped(slots, d)[x].counter))]
    ensures Fits(slots, d + [x]) ==> Fits(slots, d) && Bumped(slots, d)[x].counter as int < U32_MAX
  {
    var before, after := Bumped(slots, d), Bumped(slots, d + [x]);
    assert multiset(d + [x]) == multiset(d) + multiset{x};
    forall i | 0 <= i < |slots|
      ensures after[i] == before[x := before[x].(counter := WrappingIncrement(before[x].counter))][i]
    {
      var c, n := slots[i].counter, multiset(d)[i];
      assert before[i].counter == WrappingAdd(c, n);
      if i == x {
        assert multiset(d + [x])[i] == n + 1;
        assert after[i].counter == WrappingAdd(c, n + 1);
      } else {
        assert multiset(d + [x])[i] == n;
      }
    }
    if Fits(slots, d + [x]) {
      FitsSub(slots, d, d + [x]);
      WrappingAddExact(slots[x].counter, multiset(d)[x]);
    }
  }

  /** Increments never write a `me` field: the identity of every slot survives them. */
  lemma BumpedIdentity(slots: seq<Slot>, d: seq<nat>)
    requires Identity(slots)
    ensures Identity(Bumped(slots, d))
    ensures forall i :: 0 <= i < |slots| ==> Bumped(slots, d)[i].me == slots[i].me
  {
  }

  /** Changing only counters keeps every `me` in place. */
  lemma IdentityKept(before: seq<Slot>, after: seq<Slot>)
    requires |after| == |before| && Identity(before)
    requires forall i :: 0 <= i < |after| ==> after[i].me == before[i].me
    ensures Identity(after)
  {
  }

  /** When d fits, so does its prefix d[..k + 1]. */
  lemma FitsPrefix(slots: seq<Slot>, d: seq<nat>, k: nat)
    requires k < |d| && Fits(slots, d)
    ensures Fits(slots, d[..k + 1])
  {
    assert d == d[..k + 1] + d[k + 1..];
    assert multiset(d) == multiset(d[..k + 1]) + multiset(d[k + 1..]);
    FitsSub(slots, d[..k + 1], d);
  }

  /** One inner step of a burst, on values: incrementing slot d[k] of
      Bumped(slots, d[..k]) gives Bumped(slots, d[..k + 1]) and keeps every
      `me`; when no counter wraps, it adds one to the total. */
  lemma BurstStep(slots: seq<Slot>, d: seq<nat>, k: nat, before: seq<Slot>, after: seq<Slot>)
    requires k < |d| && d[k] < |slots|
    requires before == Bumped(slots, d[..k])
    requires after == before[d[k] := before[d[k]].(counter := WrappingIncrement(before[d[k]].counter))]
    ensures after == Bumped(slots, d[..k + 1])
    ensures Identity(before) ==> Identity(after)
    ensures Fits(slots, d) ==> Total(after) == Total(before) + 1
  {
    var x := d[k];
    assert d[..k + 1] == d[..k] + [x];
    BumpedSnoc(slots, d[..k], x);
    if Identity(before) {
      IdentityKept(before, after);
    }
    if Fits(slots, d) {
      FitsPrefix(slots, d, k);
      TotalIncrement(before, x);
    }
  }

  /** After the draws `d`, all drawn within the array and none wrapping a
      counter, the total has grown by exactly |d|. */
  lemma {:induction false} TotalBumped(slots: seq<Slot>, d: seq<nat>)
    requires Fits(slots, d)
    requires forall j :: 0 <= j < |d| ==> d[j] < |slots|
    ensures Total(Bumped(slots, d)) == Total(slots) + |d|
  {
    if d == [] {
      BumpedEmpty(slots);
    } else {
      var d', x := d[..|d| - 1], d[|d| - 1];
      assert d == d' + [x];
      var before := Bumped(slots, d');
      BumpedSnoc(slots, d', x);
      TotalBumped(slots, d');
      TotalIncrement(before, x);
    }
  }

  /** Two runs of draws one after the other equal one run of their concatenation. */
  lemma BumpedAppend(slots: seq<Slot>, a: seq<nat>, b: seq<nat>)
    ensures Bumped(Bumped(slots, a), b) == Bumped(slots, a + b)
  {
    assert multiset(a + b) == multiset(a) + multiset(b);
    var once, twice, both := Bumped(slots, a), Bumped(Bumped(slots, a), b), Bumped(slots, a + b);
    forall i | 0 <= i < |slots|
      ensures twice[i] == both[i]
    {
      var c, n, m := slots[i].counter, multiset(a)[i], multiset(b)[i];
      assert multiset(a + b)[i] == n + m;
      assert once[i].counter == WrappingAdd(c, n);
      assert twice[i].counter == WrappingAdd(WrappingAdd(c, n), m);
      assert both[i].counter == WrappingAdd(c, n + m);
      WrappingAddTwice(c, n, m);
    }
  }

  /** What fits for two runs of draws fits for the first run, and for the
      second run after the first. */
  lemma FitsAppend(slots: seq<Slot>, a: seq<nat>, b: seq<nat>)
    requires Fits(slots, a + b)
    ensures Fits(slots, a) && Fits(Bumped(slots, a), b)
  {
    assert multiset(a + b) == multiset(a) + multiset(b);
    FitsSub(slots, a, a + b);
    forall i | 0 <= i < |slots|
      ensures Bumped(slots, a)[i].counter as int + multiset(b)[i] <= U32_MAX
    {
      WrappingAddExact(slots[i].counter, multiset(a)[i]);
    }
  }

  /** The step semantics of the draws: the fetch-and-adds performed one at a
      time, in the order given, each wrapping one counter. */
  function Apply(slots: seq<Slot>, draws: seq<nat>): (r: seq<Slot>)
    ensures |r| == |slots|
    decreases |draws|
  {
    if draws == [] then slots
    else
      var s := Apply(slots, draws[..|draws| - 1]);
      var x := draws[|draws| - 1];
      if x < |s| then s[x := s[x].(counter := WrappingIncrement(s[x].counter))] else s
  }

  /** Performing the in-range draws one by one yields Bumped: the closed form
      is the result of the sequential steps. */
  lemma {:induction false} ApplyBumped(slots: seq<Slot>, d: seq<nat>)
    requires forall j :: 0 <= j < |d| ==> d[j] < |slots|
    ensures Apply(slots, d) == Bumped(slots, d)
  {
    if d == [] {
      BumpedEmpty(slots);
    } else {
      var d', x := d[..|d| - 1], d[|d| - 1];
      assert d == d' + [x];
      ApplyBumped(slots, d');
      BumpedSnoc(slots, d', x);
    }
  }

  /** Reordering the draws (one interleaving of the workers' increments
      against another) changes neither the slots the steps leave nor whether
      a counter wraps. */
  lemma InterleavingIrrelevant(slots: seq<Slot>, a: seq<nat>, b: seq<nat>)
    requires multiset(a) == multiset(b)
    requires forall j :: 0 <= j < |a| ==> a[j] < |slots|
    ensures forall j :: 0 <= j < |b| ==> b[j] < |slots|
    ensures Apply(slots, a) == Apply(slots, b)
    ensures Fits(slots, a) <==> Fits(slots, b)
  {
    forall j | 0 <= j < |b|
      ensures b[j] < |slots|
    {
      assert b[j] in multiset(a);
    }
    ApplyBumped(slots, a);
    ApplyBumped(slots, b);
  }

  /** Concatenation of a sequence of sequences. */
  function Flatten<T>(ss: seq<seq<T>>): seq<T>
  {
    if ss == [] then [] else ss[0] + Flatten(ss[1..])
  }

  lemma {:induction false} FlattenAppend<T>(a: seq<seq<T>>, b: seq<seq<T>>)
    ensures Flatten(a + b) == Flatten(a) + Flatten(b)
  {
    if a == [] {
      assert a + b == b;
    } else {
      assert (a + b)[1..] == a[1..] + b;
      FlattenAppend(a[1..], b);
    }
  }

  /** Flattening the first k + 1 chunks appends chunk k to the first k. */
  lemma {:induction false} FlattenPrefix<T>(ss: seq<seq<T>>, k: nat)
    requires k < |ss|
    ensures Flatten(ss[..k + 1]) == Flatten(ss[..k]) + ss[k]
    ensures Flatten(ss) == Flatten(ss[..k + 1]) + Flatten(ss[k + 1..])
  {
    assert ss[..k + 1] == ss[..k] + [ss[k]];
    assert ss == ss[..k + 1] + ss[k + 1..];
    assert [ss[k]][1..] == [];
    assert Flatten([ss[k]]) == ss[k];
    FlattenAppend(ss[..k], [ss[k]]);
    FlattenAppend(ss[..k + 1], ss[k + 1..]);
  }

  /** Running burst b of a worker after its first b bursts, on values. */
  lemma WorkerStep(slots: seq<Slot>, bursts: seq<seq<nat>>, b: nat, before: seq<Slot>)
    requires b < |bursts| && Fits(slots, Flatten(bursts))
    requires before == Bumped(slots, Flatten(bursts[..b]))
    ensures Fits(before, bursts[b])
    ensures Bumped(before, bursts[b]) == Bumped(slots, Flatten(bursts[..b + 1]))
  {
    FlattenPrefix(bursts, b);
    FitsSub(slots, Flatten(bursts[..b + 1]), Flatten(bursts));
    BumpedAppend(slots, Flatten(bursts[..b]), bursts[b]);
    FitsAppend(slots, Flatten(bursts[..b]), bursts[b]);
  }

  /** Running worker w of a round after the first w workers, on values. */
  lemma RoundStep(slots: seq<Slot>, workers: seq<seq<seq<nat>>>, w: nat, before: seq<Slot>)
    requires w < |workers| && Fits(slots, Flatten(Flatten(workers)))
    requires before == Bumped(slots, Flatten(Flatten(workers[..w])))
    ensures Fits(before, Flatten(workers[w]))
    ensures Bumped(before, Flatten(workers[w])) == Bumped(slots, Flatten(Flatten(workers[..w + 1])))
    ensures |Flatten(workers[..w + 1])| == |Flatten(workers[..w])| + |workers[w]|
    ensures |Flatten(workers[..w + 1])| <= |Flatten(workers)|
  {
    FlattenPrefix(workers, w);
    FlattenAppend(Flatten(workers[..w]), workers[w]);
    FlattenAppend(Flatten(workers[..w + 1]), Flatten(workers[w + 1..]));
    FitsSub(slots, Flatten(Flatten(workers[..w + 1])), Flatten(Flatten(workers)));
    BumpedAppend(slots, Flatten(Flatten(workers[..w])), Flatten(workers[w]));
    FitsAppend(slots, Flatten(Flatten(workers[..w])), Flatten(workers[w]));
  }
}
