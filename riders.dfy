/**
 * Metadata::Rider<mode>: a cursor over the metadata array that steps
 * through the slots cyclically and stops at the first slot whose byte is
 * of a category in its mode.
 */
module Riders {
  import opened Wrappers
  import opened Metadata
  import opened Probing

  class Rider {
    /** The template argument: the categories next() reports. */
    const mode: Mode
    const metadata: array<u8>
    const hashMask: u64
    /** The fingerprint of the hash the rider was built for. */
    const initialHash: u8
    /** The slot reported last; starts one before the first slot to visit. */
    var currentHash: u64
    /** log2 of the capacity. */
    ghost const log: nat
    /** The metadata bytes, which do not change while a rider is in use. */
    ghost const bytes: seq<u8>

    ghost predicate Valid() {
      && log <= MaxLog
      && metadata.Length == Pow2(log) == |bytes|
      && hashMask as int + 1 == Pow2(log)
    }

    /** The array still holds the bytes the rider was built over. */
    ghost predicate Tracks()
      reads metadata
    {
      metadata[..] == bytes
    }

    function Cap(): (c: nat)
      requires Valid()
      ensures c == metadata.Length && 1 <= c <= 0x4000_0000
    {
      Pow2Bound(log);
      hashMask as int + 1
    }

    /** The slot the next call of Next examines first. */
    function Upcoming(): (u: nat)
      reads this
      requires Valid()
      ensures u < Cap()
    {
      Pow2Bound(log);
      NextIndex(currentHash, hashMask) as nat
    }

    /** Rider(metadata, hash, hash_mask): positioned at `hash - 1`, so that `hash & mask` comes first. */
    constructor (mode: Mode, metadata: array<u8>, hash: u64, hashMask: u64, ghost log: nat)
      requires log <= MaxLog && metadata.Length == Pow2(log) && hashMask as int + 1 == Pow2(log)
      ensures Valid()
      ensures this.mode == mode && this.metadata == metadata && this.hashMask == hashMask && this.log == log
      ensures bytes == metadata[..] && Tracks()
      ensures initialHash == GetHash(hash) && currentHash == Predecessor(hash)
      ensures Upcoming() == Home(hash, Cap())
    {
      this.mode := mode;
      this.metadata := metadata;
      this.hashMask := hashMask;
      this.initialHash := GetHash(hash);
      this.currentHash := Predecessor(hash);
      this.log := log;
      this.bytes := metadata[..];
      new;
      Pow2Bound(log);
      FirstIndex(hash, hashMask);
    }

    /** The implicit copy constructor: a rider at the same slot over the same array. */
    constructor Copy(other: Rider)
      ensures mode == other.mode && metadata == other.metadata && hashMask == other.hashMask
      ensures initialHash == other.initialHash && currentHash == other.currentHash
      ensures log == other.log && bytes == other.bytes
      ensures Same(other) && other.Same(this)
    {
      mode := other.mode;
      metadata := other.metadata;
      hashMask := other.hashMask;
      initialHash := other.initialHash;
      currentHash := other.currentHash;
      log := other.log;
      bytes := other.bytes;
    }

    /**
     * next(): step to `(current + 1) & mask` until the byte there is of a
     * category in the mode, and report that slot and category. Terminates
     * because some slot of a wanted category exists. `skipped` counts the
     * slots stepped over, all of which are of unwanted categories.
     */
    method Next() returns (index: u64, category: Category, ghost skipped: nat)
      requires Valid() && Tracks()
      requires exists j :: 0 <= j < |bytes| && Wanted(mode, initialHash, bytes[j])
      modifies this
      ensures Valid() && currentHash == index
      ensures skipped < Cap() && index as nat == ProbeSlot(old(Upcoming()), skipped, Cap())
      ensures Stop(mode, initialHash, bytes[index]) == Some(category)
      ensures forall d :: 0 <= d < skipped ==> !Wanted(mode, initialHash, bytes[ProbeSlot(old(Upcoming()), d, Cap())])
      ensures Upcoming() == Succ(index as nat, Cap())
    {
      MaskOf(hashMask, log);
      ghost var start := Upcoming();
      ghost var cap := Cap();
      ghost var w :| 0 <= w < |bytes| && Wanted(mode, initialHash, bytes[w]);
      skipped := 0;
      while true
        invariant Valid() && Cap() == cap
        invariant skipped <= Dist(start, w, cap)
        invariant Upcoming() == ProbeSlot(start, skipped, cap)
        invariant forall d :: 0 <= d < skipped ==> !Wanted(mode, initialHash, bytes[ProbeSlot(start, d, cap)])
        decreases Dist(start, w, cap) - skipped
      {
        currentHash := NextIndex(currentHash, hashMask);
        NextIndexAfterSlot(currentHash, hashMask);
        var b := metadata[currentHash];
        assert b == bytes[currentHash];
        if b == GetEmpty() {
          if EmptySlot in mode {
            return currentHash, EmptySlot, skipped;
          }
        } else if b == GetDeleted() {
          if DeletedSlot in mode {
            return currentHash, DeletedSlot, skipped;
          }
        } else {
          if FullSlot in mode {
            return currentHash, FullSlot, skipped;
          }
          if HashSlot in mode && b == initialHash {
            return currentHash, HashSlot, skipped;
          }
        }
        ProbeNext(start, skipped, cap);
        skipped := skipped + 1;
      }
    }

    /** operator==: same array, same position, same mask; the fingerprint is not compared. */
    predicate Same(other: Rider)
      reads this, other
    {
      metadata == other.metadata && currentHash == other.currentHash && hashMask == other.hashMask
    }

    /**
     * get_log_capacity(): the least L with `1 << L` above the mask, which
     * recovers the log-capacity the mask was made from.
     */
    method GetLogCapacity() returns (l: nat)
      requires Valid()
      ensures l == log
      ensures Pow2(l) > hashMask as int && (l == 0 || Pow2(l - 1) <= hashMask as int)
    {
      l := 0;
      while Pow2(l) <= hashMask as int
        invariant l <= log
        decreases log - l
      {
        if l >= log {
          Pow2Monotone(log, l);
        }
        l := l + 1;
      }
      if l < log {
        Pow2Monotone(l + 1, log);
      }
    }
  }

  /** Riders that compare equal examine the same slot next. */
  lemma SameRidersAgree(a: Rider, b: Rider)
    requires a.Valid() && b.Valid() && a.Same(b)
    ensures a.Upcoming() == b.Upcoming()
  {
  }

  /**
   * Chaining calls of next() along one probe path from home: if n slots
   * of the path are behind the rider and the call stepped over `skipped`
   * more, the reported slot is n + skipped steps from home, and it is not
   * beyond the wanted slot w.
   */
  lemma RiderStep(meta: seq<u8>, mode: Mode, initialHash: u8, home: nat, n: nat, skipped: nat, w: nat)
    requires home < |meta| && w < |meta| && n <= Dist(home, w, |meta|)
    requires skipped < |meta| && Wanted(mode, initialHash, meta[w])
    requires forall d :: 0 <= d < skipped ==> !Wanted(mode, initialHash, meta[ProbeSlot(ProbeSlot(home, n, |meta|), d, |meta|)])
    ensures n + skipped <= Dist(home, w, |meta|)
    ensures ProbeSlot(ProbeSlot(home, n, |meta|), skipped, |meta|) == ProbeSlot(home, n + skipped, |meta|)
    ensures forall d :: n <= d < n + skipped ==> !Wanted(mode, initialHash, meta[ProbeSlot(home, d, |meta|)])
  {
    var cap := |meta|;
    var dw := Dist(home, w, cap);
    ProbeShift(home, n, dw - n, cap);
    assert Wanted(mode, initialHash, meta[ProbeSlot(ProbeSlot(home, n, cap), dw - n, cap)]);
    forall d | n <= d < n + skipped
      ensures !Wanted(mode, initialHash, meta[ProbeSlot(home, d, cap)])
    {
      ProbeShift(home, n, d - n, cap);
    }
    ProbeShift(home, n, skipped, cap);
  }
}
