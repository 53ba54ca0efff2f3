/**
 * The table's two parallel arrays seen as sequences: the invariant that
 * ties them to an abstract map, the counts of each kind of byte, the
 * ordered list of full slots that iteration walks, and the map that a
 * sequence of first-wins insertions builds.
 */
module Slots {
  import opened Metadata
  import opened Probing

  /** No empty byte lies on the probe path from home before slot i. */
  ghost predicate PathClear(meta: seq<u8>, home: nat, i: nat)
    requires home < |meta| && i < |meta|
  {
    forall d :: 0 <= d < Dist(home, i, |meta|) ==> meta[ProbeSlot(home, d, |meta|)] != GetEmpty()
  }

  /** On a clear path to a non-empty slot w, no slot up to w is empty. */
  lemma ClearUpTo(meta: seq<u8>, home: nat, w: nat, t: nat)
    requires home < |meta| && w < |meta| && t <= Dist(home, w, |meta|)
    requires PathClear(meta, home, w) && meta[w] != GetEmpty()
    ensures meta[ProbeSlot(home, t, |meta|)] != GetEmpty()
  {
  }

  /**
   * A rider that stops at empty bytes has passed only non-empty slots: if
   * the first n steps from home were non-empty and the steps from n to t
   * were skipped, the path is clear up to step t, and up to t + 1 when the
   * slot at step t is not empty either.
   */
  lemma ClearAfterRide(meta: seq<u8>, mode: Mode, fp: u8, home: nat, n: nat, t: nat)
    requires home < |meta| && n <= t < |meta| && EmptySlot in mode
    requires forall d :: 0 <= d < n ==> meta[ProbeSlot(home, d, |meta|)] != GetEmpty()
    requires forall d :: n <= d < t ==> !Wanted(mode, fp, meta[ProbeSlot(home, d, |meta|)])
    ensures PathClear(meta, home, ProbeSlot(home, t, |meta|))
    ensures meta[ProbeSlot(home, t, |meta|)] != GetEmpty() ==>
      forall d :: 0 <= d < t + 1 ==> meta[ProbeSlot(home, d, |meta|)] != GetEmpty()
  {
    DistOfProbe(home, t, |meta|);
  }

  /** Every byte on the probe path from home before slot i is full. */
  ghost predicate PathFull(meta: seq<u8>, home: nat, i: nat)
    requires home < |meta| && i < |meta|
  {
    forall d :: 0 <= d < Dist(home, i, |meta|) ==> IsFull(meta[ProbeSlot(home, d, |meta|)])
  }

  /** Full slot i holds the key that the index maps to i. */
  ghost predicate Owned<K, V>(meta: seq<u8>, slots: seq<(K, V)>, index: map<K, nat>, i: nat)
    requires i < |meta| == |slots|
  {
    slots[i].0 in index && index[slots[i].0] == i
  }

  /** Full slot i carries its key's fingerprint and is reachable from the key's home without crossing an empty byte. */
  ghost predicate Probed<K, V>(hasher: K -> u64, meta: seq<u8>, slots: seq<(K, V)>, i: nat)
    requires i < |meta| == |slots|
  {
    var k := slots[i].0;
    meta[i] == GetHash(hasher(k)) && PathClear(meta, Home(hasher(k), |meta|), i)
  }

  /** Key k is indexed to a full slot that holds k and its value. */
  ghost predicate Holds<K, V>(meta: seq<u8>, slots: seq<(K, V)>, index: map<K, nat>, contents: map<K, V>, k: K) {
    k in index && k in contents && index[k] < |meta| && index[k] < |slots| && IsFull(meta[index[k]]) && slots[index[k]] == (k, contents[k])
  }

  /**
   * The entry half of the invariant: index gives each key of contents a
   * full slot holding that key and its value, and every full slot is the
   * indexed slot of the key it holds.
   */
  ghost predicate Indexed<K, V>(meta: seq<u8>, slots: seq<(K, V)>, index: map<K, nat>, contents: map<K, V>) {
    && |meta| == |slots| > 0
    && index.Keys == contents.Keys
    && (forall k {:trigger Holds(meta, slots, index, contents, k)} :: k in index ==> Holds(meta, slots, index, contents, k))
    && (forall i {:trigger Owned(meta, slots, index, i)} :: 0 <= i < |meta| && IsFull(meta[i]) ==> Owned(meta, slots, index, i))
  }

  /**
   * The open-addressing invariant: the entries are indexed as above, and
   * every full slot lies on its key's probe path, which the find loops
   * follow until they reach the key or an empty byte.
   */
  ghost predicate Inv<K, V>(hasher: K -> u64, meta: seq<u8>, slots: seq<(K, V)>, index: map<K, nat>, contents: map<K, V>) {
    && Indexed(meta, slots, index, contents)
    && (forall i {:trigger Probed(hasher, meta, slots, i)} :: 0 <= i < |meta| && IsFull(meta[i]) ==> Probed(hasher, meta, slots, i))
  }

  /** What the invariant says about one key of the map. */
  lemma IndexedAt<K, V>(meta: seq<u8>, slots: seq<(K, V)>, index: map<K, nat>, contents: map<K, V>, k: K)
    requires Indexed(meta, slots, index, contents) && k in contents
    ensures index[k] < |meta| && IsFull(meta[index[k]]) && slots[index[k]] == (k, contents[k])
  {
    assert Holds(meta, slots, index, contents, k);
  }

  // ---------------------------------------------------------------------
  // Counting bytes

  /** How many bytes of meta equal b. */
  function Count(meta: seq<u8>, b: u8): (n: nat)
    ensures n <= |meta|
  {
    if meta == [] then 0 else (if meta[0] == b then 1 else 0) + Count(meta[1..], b)
  }

  function EmptyCount(meta: seq<u8>): nat {
    Count(meta, GetEmpty())
  }

  function DeletedCount(meta: seq<u8>): nat {
    Count(meta, GetDeleted())
  }

  lemma {:induction false} SentinelsBounded(meta: seq<u8>)
    ensures EmptyCount(meta) + DeletedCount(meta) <= |meta|
  {
    if meta != [] {
      SentinelsBounded(meta[1..]);
    }
  }

  /** Bytes that are not empty: live entries and tombstones. */
  function NonEmptyCount(meta: seq<u8>): (n: nat)
    ensures n <= |meta|
  {
    |meta| - EmptyCount(meta)
  }

  /** Bytes holding a fingerprint. */
  function FullCount(meta: seq<u8>): (n: nat)
    ensures n + DeletedCount(meta) == NonEmptyCount(meta)
  {
    SentinelsBounded(meta);
    |meta| - EmptyCount(meta) - DeletedCount(meta)
  }

  /** A byte that is counted occurs somewhere. */
  lemma {:induction false} CountedOccurs(meta: seq<u8>, b: u8)
    requires Count(meta, b) > 0
    ensures exists i :: 0 <= i < |meta| && meta[i] == b
  {
    if meta[0] != b {
      CountedOccurs(meta[1..], b);
      var i :| 0 <= i < |meta[1..]| && meta[1..][i] == b;
      assert meta[i + 1] == b;
    }
  }

  /** A table with fewer non-empty bytes than slots has an empty slot. */
  lemma SomeEmpty(meta: seq<u8>)
    requires NonEmptyCount(meta) < |meta|
    ensures exists i :: 0 <= i < |meta| && meta[i] == GetEmpty()
  {
    CountedOccurs(meta, GetEmpty());
  }

  /** A byte that occurs is counted. */
  lemma {:induction false} OccursCounted(meta: seq<u8>, b: u8, i: nat)
    requires i < |meta| && meta[i] == b
    ensures Count(meta, b) > 0
  {
    if i > 0 {
      OccursCounted(meta[1..], b, i - 1);
    }
  }

  /** A table whose bytes are all non-empty has no empty slot to end a probe. */
  lemma NoEmpty(meta: seq<u8>)
    requires NonEmptyCount(meta) == |meta|
    ensures forall i :: 0 <= i < |meta| ==> meta[i] != GetEmpty()
  {
    forall i | 0 <= i < |meta|
      ensures meta[i] != GetEmpty()
    {
      if meta[i] == GetEmpty() {
        OccursCounted(meta, GetEmpty(), i);
      }
    }
  }

  /** Overwriting slot t with b moves one byte from the count of meta[t] to that of b. */
  lemma {:induction false} CountUpdate(meta: seq<u8>, t: nat, b: u8, x: u8)
    requires t < |meta|
    ensures Count(meta[t := b], x) + (if meta[t] == x then 1 else 0) == Count(meta, x) + (if b == x then 1 else 0)
  {
    if t == 0 {
      assert meta[t := b][1..] == meta[1..];
    } else {
      assert meta[t := b][1..] == meta[1..][t - 1 := b];
      CountUpdate(meta[1..], t - 1, b, x);
    }
  }

  /** Writing byte b into a non-full slot adds one full byte. */
  lemma CountAfterFill(meta: seq<u8>, t: nat, b: u8)
    requires t < |meta| && !IsFull(meta[t]) && IsFull(b)
    ensures FullCount(meta[t := b]) == FullCount(meta) + 1
    ensures NonEmptyCount(meta[t := b]) == NonEmptyCount(meta) + (if meta[t] == GetEmpty() then 1 else 0)
    ensures DeletedCount(meta[t := b]) == DeletedCount(meta) - (if meta[t] == GetDeleted() then 1 else 0)
  {
    CountUpdate(meta, t, b, GetEmpty());
    CountUpdate(meta, t, b, GetDeleted());
  }

  /** Turning a full byte into a tombstone removes one full byte and keeps the non-empty count. */
  lemma CountAfterErase(meta: seq<u8>, t: nat)
    requires t < |meta| && IsFull(meta[t])
    ensures FullCount(meta[t := GetDeleted()]) == FullCount(meta) - 1
    ensures NonEmptyCount(meta[t := GetDeleted()]) == NonEmptyCount(meta)
  {
    CountUpdate(meta, t, GetDeleted(), GetEmpty());
    CountUpdate(meta, t, GetDeleted(), GetDeleted());
  }

  // ---------------------------------------------------------------------
  // The full slots in index order, as iteration visits them

  function FullFrom(meta: seq<u8>, i: nat): (r: seq<nat>)
    requires i <= |meta|
    ensures forall j :: 0 <= j < |r| ==> i <= r[j] < |meta|
    decreases |meta| - i
  {
    if i == |meta| then []
    else if IsFull(meta[i]) then [i] + FullFrom(meta, i + 1)
    else FullFrom(meta, i + 1)
  }

  /** FullFrom(meta, i) lists exactly the full slots at or after i ... */
  lemma {:induction false} FullFromMembers(meta: seq<u8>, i: nat, x: nat)
    requires i <= |meta|
    ensures x in FullFrom(meta, i) <==> i <= x < |meta| && IsFull(meta[x])
    decreases |meta| - i
  {
    if i < |meta| {
      FullFromMembers(meta, i + 1, x);
    }
  }

  /** ... in strictly increasing order, so each of them once. */
  lemma {:induction false} FullFromIncreasing(meta: seq<u8>, i: nat)
    requires i <= |meta|
    ensures forall a, b :: 0 <= a < b < |FullFrom(meta, i)| ==> FullFrom(meta, i)[a] < FullFrom(meta, i)[b]
    decreases |meta| - i
  {
    if i < |meta| {
      FullFromIncreasing(meta, i + 1);
    }
  }

  /** Slots without a fingerprint contribute nothing. */
  lemma {:induction false} FullFromSkip(meta: seq<u8>, a: nat, b: nat)
    requires a <= b <= |meta|
    requires forall j :: a <= j < b ==> !IsFull(meta[j])
    ensures FullFrom(meta, a) == FullFrom(meta, b)
    decreases b - a
  {
    if a < b {
      FullFromSkip(meta, a + 1, b);
    }
  }

  /** Iteration visits as many slots as there are fingerprints. */
  lemma {:induction false} FullFromCount(meta: seq<u8>, i: nat)
    requires i <= |meta|
    ensures |FullFrom(meta, i)| == FullCount(meta[i..])
    decreases |meta| - i
  {
    if i < |meta| {
      FullFromCount(meta, i + 1);
      assert meta[i..][1..] == meta[i + 1..];
    }
  }

  /**
   * s is the first full slot met by a cyclic probe from start: what a
   * full-mode rider positioned just before start reports.
   */
  ghost predicate FirstFull(meta: seq<u8>, start: nat, s: nat)
    requires start < |meta| && s < |meta|
  {
    IsFull(meta[s]) && forall d :: 0 <= d < Dist(start, s, |meta|) ==> !IsFull(meta[ProbeSlot(start, d, |meta|)])
  }

  /** From slot 0 the first full slot is where the in-order list of full slots starts. */
  lemma FirstFullFromZero(meta: seq<u8>, s: nat)
    requires 0 < |meta| && s < |meta| && FirstFull(meta, 0, s)
    ensures FullFrom(meta, 0) == FullFrom(meta, s)
  {
    forall j | 0 <= j < s
      ensures !IsFull(meta[j])
    {
      assert ProbeSlot(0, j, |meta|) == j;
    }
    FullFromSkip(meta, 0, s);
  }

  /** A probe that starts on a full slot stops there. */
  lemma FirstFullAtFull(meta: seq<u8>, start: nat, s: nat)
    requires start < |meta| && s < |meta| && IsFull(meta[start]) && FirstFull(meta, start, s)
    ensures s == start
  {
    assert ProbeSlot(start, 0, |meta|) == start;
  }

  /**
   * After the step from full slot `last` to the first full slot i probed
   * from the slot after it: either i lies beyond last and is the next full
   * slot in index order, or the probe wrapped around and no full slot
   * follows last.
   */
  lemma {:induction false} NextFull(meta: seq<u8>, last: nat, start: nat, skipped: nat, i: nat)
    requires last < |meta| && IsFull(meta[last]) && skipped < |meta|
    requires start == if last + 1 < |meta| then last + 1 else 0
    requires i == ProbeSlot(start, skipped, |meta|)
    requires forall d :: 0 <= d < skipped ==> !IsFull(meta[ProbeSlot(start, d, |meta|)])
    ensures i <= last ==> FullFrom(meta, last)[1..] == []
    ensures i > last ==> FullFrom(meta, last)[1..] == FullFrom(meta, i)
  {
    var cap := |meta|;
    assert FullFrom(meta, last) == [last] + FullFrom(meta, last + 1);
    if last + 1 < cap {
      if i <= last {
        forall j | start <= j < cap
          ensures !IsFull(meta[j])
        {
          assert j == ProbeSlot(start, j - start, cap);
        }
        FullFromSkip(meta, start, cap);
      } else {
        forall j | start <= j < i
          ensures !IsFull(meta[j])
        {
          assert j == ProbeSlot(start, j - start, cap);
        }
        FullFromSkip(meta, start, i);
      }
    }
  }

  lemma GatherTail<T>(s: seq<T>, idx: seq<nat>)
    requires forall j :: 0 <= j < |idx| ==> idx[j] < |s|
    requires idx != []
    ensures Gather(s, idx[1..]) == Gather(s, idx)[1..]
  {
  }

  /** Position of the first occurrence of x in s. */
  function IndexOf(s: seq<nat>, x: nat): (j: nat)
    requires x in s
    ensures j < |s| && s[j] == x && x !in s[..j]
  {
    if s[0] == x then 0 else 1 + IndexOf(s[1..], x)
  }

  /** A table with a fingerprint somewhere has a full slot. */
  lemma SomeFull(meta: seq<u8>)
    requires FullCount(meta) > 0
    ensures exists i :: 0 <= i < |meta| && IsFull(meta[i])
  {
    FullFromCount(meta, 0);
    assert meta[0..] == meta;
    FullFromMembers(meta, 0, FullFrom(meta, 0)[0]);
  }

  /** The elements of s at the positions idx, in that order. */
  function Gather<T>(s: seq<T>, idx: seq<nat>): (r: seq<T>)
    requires forall j :: 0 <= j < |idx| ==> idx[j] < |s|
    ensures |r| == |idx|
  {
    seq(|idx|, j requires 0 <= j < |idx| => s[idx[j]])
  }

  // ---------------------------------------------------------------------
  // Building a map by first-wins insertion, as HashMap::insert does

  function InsertIfAbsent<K(==), V>(m: map<K, V>, kv: (K, V)): map<K, V> {
    if kv.0 in m then m else m[kv.0 := kv.1]
  }

  function InsertAll<K(==), V>(m: map<K, V>, kvs: seq<(K, V)>): map<K, V>
    decreases |kvs|
  {
    if kvs == [] then m else InsertAll(InsertIfAbsent(m, kvs[0]), kvs[1..])
  }

  /** The keys of the result are the keys already present and the keys inserted. */
  lemma {:induction false} InsertAllKeys<K, V>(m: map<K, V>, kvs: seq<(K, V)>, k: K)
    ensures k in InsertAll(m, kvs) <==> k in m || exists j :: 0 <= j < |kvs| && kvs[j].0 == k
    decreases |kvs|
  {
    if kvs != [] {
      InsertAllKeys(InsertIfAbsent(m, kvs[0]), kvs[1..], k);
      if exists j :: 0 <= j < |kvs| && kvs[j].0 == k {
        var j :| 0 <= j < |kvs| && kvs[j].0 == k;
        if j > 0 {
          assert kvs[1..][j - 1].0 == k;
        }
      }
    }
  }

  /** A present key keeps its value; an absent key gets the value of its first occurrence. */
  lemma {:induction false} InsertAllFirstWins<K, V>(m: map<K, V>, kvs: seq<(K, V)>, j: nat)
    requires j < |kvs| && kvs[j].0 !in m
    requires forall i :: 0 <= i < j ==> kvs[i].0 != kvs[j].0
    ensures kvs[j].0 in InsertAll(m, kvs) && InsertAll(m, kvs)[kvs[j].0] == kvs[j].1
    decreases |kvs|
  {
    if j == 0 {
      InsertAllKeeps(InsertIfAbsent(m, kvs[0]), kvs[1..], kvs[0].0);
    } else {
      InsertAllFirstWins(InsertIfAbsent(m, kvs[0]), kvs[1..], j - 1);
    }
  }

  lemma {:induction false} InsertAllKeeps<K, V>(m: map<K, V>, kvs: seq<(K, V)>, k: K)
    requires k in m
    ensures k in InsertAll(m, kvs) && InsertAll(m, kvs)[k] == m[k]
    decreases |kvs|
  {
    if kvs != [] {
      InsertAllKeeps(InsertIfAbsent(m, kvs[0]), kvs[1..], k);
    }
  }

  /** Folding one more pair onto the end inserts it last. */
  lemma {:induction false} InsertAllSnoc<K, V>(m: map<K, V>, kvs: seq<(K, V)>, kv: (K, V))
    ensures InsertAll(m, kvs + [kv]) == InsertIfAbsent(InsertAll(m, kvs), kv)
    decreases |kvs|
  {
    if kvs == [] {
      assert [] + [kv] == [kv];
    } else {
      assert (kvs + [kv])[1..] == kvs[1..] + [kv];
      InsertAllSnoc(InsertIfAbsent(m, kvs[0]), kvs[1..], kv);
    }
  }

  // ---------------------------------------------------------------------
  // The invariant under the table's operations

  /** A table whose bytes are all empty represents the empty map. */
  lemma EmptyTable<K, V>(hasher: K -> u64, meta: seq<u8>, slots: seq<(K, V)>)
    requires |meta| == |slots| > 0
    requires forall i :: 0 <= i < |meta| ==> meta[i] == GetEmpty()
    ensures Inv(hasher, meta, slots, map[], map[])
    ensures FullCount(meta) == 0 && NonEmptyCount(meta) == 0 && DeletedCount(meta) == 0
  {
    SingleValue(meta, GetEmpty());
  }

  lemma {:induction false} SingleValue(s: seq<u8>, b: u8)
    requires forall i :: 0 <= i < |s| ==> s[i] == b
    ensures Count(s, b) == |s| && forall x :: x != b ==> Count(s, x) == 0
  {
    if s != [] {
      SingleValue(s[1..], b);
    }
  }

  /**
   * Writing key k with value v into slot t keeps the invariant, provided t
   * is not full, k is absent, and no empty byte lies on k's probe path
   * before t: exactly what find_allow_deleted_generic reports on a miss.
   */
  lemma InsertKeepsInv<K, V>(hasher: K -> u64, meta: seq<u8>, slots: seq<(K, V)>, index: map<K, nat>, contents: map<K, V>, t: nat, k: K, v: V)
    requires Inv(hasher, meta, slots, index, contents)
    requires t < |meta| && !IsFull(meta[t]) && k !in contents
    requires PathClear(meta, Home(hasher(k), |meta|), t)
    ensures Inv(hasher, meta[t := GetHash(hasher(k))], slots[t := (k, v)], index[k := t], contents[k := v])
  {
    var meta', slots', index' := meta[t := GetHash(hasher(k))], slots[t := (k, v)], index[k := t];
    var cap := |meta|;
    forall k2 | k2 in index'
      ensures Holds(meta', slots', index', contents[k := v], k2)
    {
      if k2 != k {
        assert Holds(meta, slots, index, contents, k2);
      }
    }
    forall i | 0 <= i < cap && IsFull(meta'[i])
      ensures Owned(meta', slots', index', i) && Probed(hasher, meta', slots', i)
    {
      var home := Home(hasher(slots'[i].0), cap);
      if i == t {
        forall d | 0 <= d < Dist(home, t, cap)
          ensures meta'[ProbeSlot(home, d, cap)] != GetEmpty()
        {
          DistOfProbe(home, d, cap);
        }
      } else {
        assert Owned(meta, slots, index, i) && Probed(hasher, meta, slots, i);
      }
    }
  }

  /** Overwriting the value in a present key's slot keeps the invariant and updates exactly that key. */
  lemma AssignKeepsInv<K, V>(hasher: K -> u64, meta: seq<u8>, slots: seq<(K, V)>, index: map<K, nat>, contents: map<K, V>, k: K, v: V)
    requires Inv(hasher, meta, slots, index, contents)
    requires k in contents
    ensures index[k] < |slots| && Inv(hasher, meta, slots[index[k] := (k, v)], index, contents[k := v])
  {
    IndexedAt(meta, slots, index, contents, k);
    var t := index[k];
    var slots' := slots[t := (k, v)];
    forall k2 | k2 in index
      ensures Holds(meta, slots', index, contents[k := v], k2)
    {
      assert Holds(meta, slots, index, contents, k2);
      if k2 != k {
        assert Owned(meta, slots, index, index[k2]);
      }
    }
    forall i | 0 <= i < |meta| && IsFull(meta[i])
      ensures Owned(meta, slots', index, i) && Probed(hasher, meta, slots', i)
    {
      assert Owned(meta, slots, index, i) && Probed(hasher, meta, slots, i);
    }
  }

  /** Turning the slot of a present key into a tombstone keeps the invariant for the other keys. */
  lemma EraseKeepsInv<K, V>(hasher: K -> u64, meta: seq<u8>, slots: seq<(K, V)>, index: map<K, nat>, contents: map<K, V>, k: K)
    requires Inv(hasher, meta, slots, index, contents)
    requires k in contents
    ensures index[k] < |meta| && Inv(hasher, meta[index[k] := GetDeleted()], slots, index - {k}, contents - {k})
  {
    IndexedAt(meta, slots, index, contents, k);
    var i0 := index[k];
    var meta', index' := meta[i0 := GetDeleted()], index - {k};
    forall k2 | k2 in index'
      ensures Holds(meta', slots, index', contents - {k}, k2)
    {
      assert Holds(meta, slots, index, contents, k2);
      assert Owned(meta, slots, index, index[k2]);
    }
    forall i | 0 <= i < |meta'| && IsFull(meta'[i])
      ensures Owned(meta', slots, index', i) && Probed(hasher, meta', slots, i)
    {
      assert Owned(meta, slots, index, i) && Probed(hasher, meta, slots, i);
    }
  }

  /** The entries of the slots at or after i whose keys the index places there. */
  ghost function Above<K, V>(contents: map<K, V>, index: map<K, nat>, i: nat): map<K, V>
    requires index.Keys == contents.Keys
  {
    map k | k in contents && index[k] >= i :: contents[k]
  }

  /**
   * Inserting, first-wins, the entries of the full slots from i on, in slot
   * order, adds exactly the table's entries placed at or after i.
   */
  lemma {:induction false} EntriesFrom<K, V>(meta: seq<u8>, slots: seq<(K, V)>, index: map<K, nat>, contents: map<K, V>, i: nat, m: map<K, V>)
    requires Indexed(meta, slots, index, contents)
    requires i <= |meta|
    requires m.Keys !! Above(contents, index, i).Keys
    ensures InsertAll(m, Gather(slots, FullFrom(meta, i))) == m + Above(contents, index, i)
    decreases |meta| - i
  {
    forall k2 | k2 in index
      ensures index[k2] < |meta| && IsFull(meta[index[k2]]) && slots[index[k2]].0 == k2
    {
      assert Holds(meta, slots, index, contents, k2);
    }
    if i == |meta| {
      assert Above(contents, index, i) == map[];
    } else if IsFull(meta[i]) {
      assert Owned(meta, slots, index, i);
      var k := slots[i].0;
      GatherFull(slots, meta, i);
      forall k2 | k2 in index && k2 != k
        ensures index[k2] != i
      {
        assert Owned(meta, slots, index, index[k2]);
      }
      AboveAtSlot(contents, index, i, k);
      assert Holds(meta, slots, index, contents, k);
      assert InsertIfAbsent(m, slots[i]) == m[k := contents[k]];
      ShiftEntry(m, Above(contents, index, i + 1), k, contents[k]);
      EntriesFrom(meta, slots, index, contents, i + 1, m[k := contents[k]]);
    } else {
      AboveAtOtherSlot(contents, index, i);
      EntriesFrom(meta, slots, index, contents, i + 1, m);
    }
  }

  lemma GatherFull<T>(slots: seq<T>, meta: seq<u8>, i: nat)
    requires i < |meta| == |slots| && IsFull(meta[i])
    ensures Gather(slots, FullFrom(meta, i)) == [slots[i]] + Gather(slots, FullFrom(meta, i + 1))
  {
  }

  lemma AboveAtSlot<K, V>(contents: map<K, V>, index: map<K, nat>, i: nat, k: K)
    requires index.Keys == contents.Keys && k in index && index[k] == i
    requires forall k2 :: k2 in index && k2 != k ==> index[k2] != i
    ensures k !in Above(contents, index, i + 1)
    ensures Above(contents, index, i) == Above(contents, index, i + 1)[k := contents[k]]
  {
  }

  lemma ShiftEntry<K, V>(m: map<K, V>, a: map<K, V>, k: K, v: V)
    requires k !in a
    ensures m + a[k := v] == m[k := v] + a
  {
  }

  lemma AboveAtOtherSlot<K, V>(contents: map<K, V>, index: map<K, nat>, i: nat)
    requires index.Keys == contents.Keys && forall k :: k in index ==> index[k] != i
    ensures Above(contents, index, i) == Above(contents, index, i + 1)
  {
  }

  /** Copying all entries in slot order, as resize does, rebuilds the abstract map. */
  lemma AllEntries<K, V>(meta: seq<u8>, slots: seq<(K, V)>, index: map<K, nat>, contents: map<K, V>)
    requires Indexed(meta, slots, index, contents)
    ensures InsertAll(map[], Gather(slots, FullFrom(meta, 0))) == contents
  {
    EntriesFrom(meta, slots, index, contents, 0, map[]);
    assert Above(contents, index, 0) == contents;
  }
}
