/**
 * Capacities, masks and linear-probe positions.
 *
 * Every mask the table builds is `(1 << L) - 1` for its log-capacity L, and
 * for such a mask `x & mask` keeps the L low bits of x, i.e. it is
 * `x mod 2^L`. The model writes the masking step that way.
 */
module Probing {
  import opened Metadata

  /** `1 << log_capacity_` is computed in `int`, so the table works for L <= 30. */
  const MaxLog: nat := 30

  function Pow2(n: nat): (p: nat)
    ensures p >= 1
  {
    if n == 0 then 1 else 2 * Pow2(n - 1)
  }

  lemma {:induction false} Pow2Monotone(a: nat, b: nat)
    requires a <= b
    ensures Pow2(a) <= Pow2(b)
  {
    if a < b {
      Pow2Monotone(a, b - 1);
    }
  }

  lemma {:induction false} Pow2Add(a: nat, b: nat)
    ensures Pow2(a + b) == Pow2(a) * Pow2(b)
  {
    if a > 0 {
      Pow2Add(a - 1, b);
    }
  }

  /** The largest capacity is 2^30. */
  lemma Pow2Bound(n: nat)
    requires n <= MaxLog
    ensures Pow2(n) <= 0x4000_0000
  {
    Pow2Monotone(n, MaxLog);
    Pow2Add(10, 20);
    Pow2Add(10, 10);
    assert Pow2(10) == 1024;
  }

  /** A capacity of at least 8 needs a log-capacity of at least 3. */
  lemma Pow2AtLeastEight(n: nat)
    ensures Pow2(n) >= 8 ==> n >= 3
  {
    if n < 3 {
      Pow2Monotone(n, 2);
    }
  }

  /** `hash - 1` in uint64_t arithmetic: 0 wraps to 2^64 - 1. */
  function Predecessor(hash: u64): u64 {
    ((hash as int + TWO64 - 1) % TWO64) as u64
  }

  /** The masks the table builds: `(1 << L) - 1` for a log-capacity L <= 30. */
  ghost predicate IsMask(mask: u64) {
    exists L: nat :: L <= MaxLog && mask as int + 1 == Pow2(L)
  }

  /** A mask of a log-capacity is one, and its capacity is at most 2^30. */
  lemma MaskOf(mask: u64, L: nat)
    requires L <= MaxLog && mask as int + 1 == Pow2(L)
    ensures IsMask(mask) && mask as int + 1 <= 0x4000_0000
  {
    Pow2Bound(L);
  }

  /** `(current + 1) & mask` in uint64_t arithmetic, for a mask 2^L - 1. */
  function NextIndex(current: u64, mask: u64): (r: u64)
    requires IsMask(mask)
    ensures r <= mask
  {
    (((current as int + 1) % TWO64) % (mask as int + 1)) as u64
  }

  /** A rider started at `hash - 1` first visits `hash & mask`, also for hash == 0. */
  lemma FirstIndex(hash: u64, mask: u64)
    requires IsMask(mask)
    ensures NextIndex(Predecessor(hash), mask) as int == hash as int % (mask as int + 1)
  {
    var L: nat :| L <= MaxLog && mask as int + 1 == Pow2(L);
    MaskOf(mask, L);
    FirstIndexMod(hash as int, mask as int + 1);
  }

  /** The arithmetic behind FirstIndex, on plain integers. */
  lemma FirstIndexMod(h: int, m: int)
    requires 0 <= h < TWO64 && 1 <= m <= 0x4000_0000
    ensures (((h + TWO64 - 1) % TWO64 + 1) % TWO64) % m == h % m
  {
    if h == 0 {
      assert (h + TWO64 - 1) % TWO64 == TWO64 - 1;
    } else {
      assert (h + TWO64 - 1) % TWO64 == h - 1;
    }
  }

  /** After slot c, the wrap-around step visits c + 1, or 0 after the last slot. */
  lemma NextIndexAfterSlot(c: u64, mask: u64)
    requires IsMask(mask) && c <= mask
    ensures NextIndex(c, mask) as int == Succ(c as nat, mask as nat + 1)
  {
    var L: nat :| L <= MaxLog && mask as int + 1 == Pow2(L);
    MaskOf(mask, L);
    var m := mask as int + 1;
    assert (c as int + 1) % TWO64 == c as int + 1;
    ModStep(c as int, m);
  }

  lemma ModStep(c: int, m: int)
    requires 0 <= c < m
    ensures (c + 1) % m == if c + 1 < m then c + 1 else 0
  {
  }

  /** The slot after s in a cyclic order of cap slots. */
  function Succ(s: nat, cap: nat): (r: nat)
    requires s < cap
    ensures r < cap
  {
    if s + 1 < cap then s + 1 else 0
  }

  /** `hash & mask` for a table of cap slots: the first slot probed for the hash. */
  function Home(hash: u64, cap: nat): (h: nat)
    requires cap > 0
    ensures h < cap
  {
    hash as int % cap
  }

  /** A slot index is its own home: masking leaves it unchanged. */
  lemma HomeOfSlot(s: u64, cap: nat)
    requires s as int < cap
    ensures Home(s, cap) == s as nat
  {
  }

  /**
   * The slot d steps after base on a cyclic probe over cap slots; equals
   * (base + d) mod cap.
   */
  function ProbeSlot(base: nat, d: nat, cap: nat): (s: nat)
    requires base < cap && d < cap
    ensures s < cap
  {
    if base + d < cap then base + d else base + d - cap
  }

  /** ProbeSlot is the cyclic position (base + d) mod cap. */
  lemma ProbeSlotIsMod(base: nat, d: nat, cap: nat)
    requires base < cap && d < cap
    ensures ProbeSlot(base, d, cap) == (base + d) % cap
  {
  }

  /** How many steps a cyclic probe from base needs to reach slot s. */
  function Dist(base: nat, s: nat, cap: nat): (d: nat)
    requires base < cap && s < cap
    ensures d < cap && ProbeSlot(base, d, cap) == s
    ensures d == 0 <==> s == base
  {
    if base <= s then s - base else s + cap - base
  }

  /** Distinct step counts below cap reach distinct slots: Dist inverts ProbeSlot. */
  lemma DistOfProbe(base: nat, d: nat, cap: nat)
    requires base < cap && d < cap
    ensures Dist(base, ProbeSlot(base, d, cap), cap) == d
  {
  }

  /** Probing n steps from the slot t steps after base is probing t + n steps from base. */
  lemma ProbeShift(base: nat, t: nat, n: nat, cap: nat)
    requires base < cap && t + n < cap
    ensures ProbeSlot(ProbeSlot(base, t, cap), n, cap) == ProbeSlot(base, t + n, cap)
  {
  }

  /** The step after slot ProbeSlot(base, d) is the slot one step further. */
  lemma ProbeNext(base: nat, d: nat, cap: nat)
    requires base < cap && d + 1 < cap
    ensures Succ(ProbeSlot(base, d, cap), cap) == ProbeSlot(base, d + 1, cap)
  {
  }
}
