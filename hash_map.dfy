/**
 * HashMap<Key, Value, Hash>: an open-addressing table with linear probing
 * over a metadata array and a parallel data array of 2^log_capacity_
 * slots. The ghost map Contents is the abstract value the table
 * represents; Index says which slot holds each key.
 */
module HashMaps {
  import opened Wrappers
  import opened Metadata
  import opened Probing
  import opened Slots
  import opened Riders
  import opened Iterators

  /** [l, r) is a valid range whose entries fit in half of the largest table. */
  ghost predicate Range<K, V>(l: IteratorBase<K, V>, r: IteratorBase<K, V>)
    reads l, l.rider, l.rider.metadata, l.data, r, r.rider, r.rider.metadata
  {
    l.Valid() && l.Reaches(r) && |l.ElementsUntil(r)| <= Pow2(MaxLog) / 2
  }

  /** What `at` yields: the value, or the std::out_of_range it throws. */
  datatype Lookup<V> = Found(value: V) | OutOfRange

  class HashMap<K(==,0), V(0)> {
    var hasher: K -> u64
    var size: nat
    var logCapacity: nat
    var metadata: array<u8>
    var data: array<(K, V)>
    /** Counts insert_generic calls since the last clear; not reset by resize. */
    var full: nat
    ghost var Contents: map<K, V>
    ghost var Index: map<K, nat>

    ghost predicate Valid()
      reads this, metadata, data
    {
      && logCapacity <= MaxLog
      && metadata.Length == Pow2(logCapacity)
      && data.Length == metadata.Length
      && Inv(hasher, metadata[..], data[..], Index, Contents)
      && size == |Contents|
      && FullCount(metadata[..]) == size
    }

    function Cap(): nat
      reads this
    {
      Pow2(logCapacity)
    }

    /**
     * full_ bounds the bytes that are not empty, and those fill at most
     * half of the table; this is what keeps an empty slot for a miss.
     */
    ghost predicate Sound()
      reads this, metadata, data
    {
      Valid() && NonEmptyCount(metadata[..]) <= full && NonEmptyCount(metadata[..]) <= Cap() / 2
    }

    /** Some byte is empty, so a probe for a missing key stops. */
    ghost predicate HasEmpty()
      reads this, metadata
    {
      exists i :: 0 <= i < metadata.Length && metadata[i] == GetEmpty()
    }

    /** The slot that holds a key of the map. */
    ghost function SlotOf(key: K): (i: nat)
      reads this, metadata, data
      requires Valid() && key in Contents
      ensures i < metadata.Length && IsFull(metadata[i]) && data[i] == (key, Contents[key])
    {
      IndexedAt(metadata[..], data[..], Index, Contents, key);
      Index[key]
    }

    lemma SoundHasEmpty()
      requires Sound()
      ensures HasEmpty()
    {
      SomeEmpty(metadata[..]);
    }

    /** `(1 << log_capacity_) - 1`. */
    function Mask(): (m: u64)
      reads this
      requires logCapacity <= MaxLog
      ensures m as int + 1 == Pow2(logCapacity)
    {
      Pow2Bound(logCapacity);
      (Pow2(logCapacity) - 1) as u64
    }

    // -------------------------------------------------------------------
    // Construction

    /** HashMap(hasher): two empty slots. */
    constructor (hasher: K -> u64)
      ensures Valid() && Sound() && this.hasher == hasher
      ensures Contents == map[] && size == 0 && full == 0 && logCapacity == 1
    {
      this.hasher := hasher;
      size := 0;
      full := 0;
      logCapacity := 1;
      metadata := new u8[2](_ => GetEmpty());
      data := new (K, V)[2];
      Contents := map[];
      Index := map[];
      new;
      EmptyTable(hasher, metadata[..], data[..]);
    }

    /** The element-by-element copy loop of the copy constructor and of operator=. */
    static method CopySlots(meta: array<u8>, slots: array<(K, V)>) returns (m: array<u8>, d: array<(K, V)>)
      requires meta.Length == slots.Length
      ensures fresh(m) && fresh(d)
      ensures m[..] == meta[..] && d[..] == slots[..]
    {
      m := new u8[meta.Length];
      d := new (K, V)[meta.Length];
      var i := 0;
      while i < meta.Length
        invariant 0 <= i <= meta.Length
        invariant m[..i] == meta[..i] && d[..i] == slots[..i]
      {
        m[i] := meta[i];
        d[i] := slots[i];
        i := i + 1;
      }
    }

    /**
     * The copy constructor as written: it copies hasher_, size_,
     * log_capacity_ and both arrays, but full_ keeps its initial value 0.
     */
    constructor CopyAsWritten(other: HashMap<K, V>)
      requires other.Valid()
      ensures Valid() && hasher == other.hasher && Contents == other.Contents
      ensures size == other.size && logCapacity == other.logCapacity && full == 0
      ensures metadata[..] == other.metadata[..] && data[..] == other.data[..]
      ensures fresh(metadata) && fresh(data)
    {
      hasher := other.hasher;
      size := other.size;
      logCapacity := other.logCapacity;
      var m, d := CopySlots(other.metadata, other.data);
      metadata := m;
      data := d;
      full := 0;
      Contents := other.Contents;
      Index := other.Index;
    }

    /** The copy constructor with full_ copied as operator= does. */
    constructor Copy(other: HashMap<K, V>)
      requires other.Valid()
      ensures Valid() && hasher == other.hasher && Contents == other.Contents
      ensures size == other.size && logCapacity == other.logCapacity && full == other.full
      ensures metadata[..] == other.metadata[..] && data[..] == other.data[..]
      ensures other.Sound() ==> Sound()
      ensures fresh(metadata) && fresh(data)
    {
      hasher := other.hasher;
      size := other.size;
      logCapacity := other.logCapacity;
      var m, d := CopySlots(other.metadata, other.data);
      metadata := m;
      data := d;
      full := other.full;
      Contents := other.Contents;
      Index := other.Index;
    }

    /**
     * HashMap(l, r, log_capacity, hasher): a table of 2^log_capacity slots
     * filled by inserting the entries of [l, r) in order.
     */
    constructor FromRange(l: IteratorBase<K, V>, r: IteratorBase<K, V>, log: nat, hasher: K -> u64)
      requires log <= MaxLog && Range(l, r)
      ensures Filled(hasher, log, l.ElementsUntil(r), |l.ElementsUntil(r)|)
      ensures fresh(metadata) && fresh(data)
      ensures unchanged(l, l.rider, r, r.rider)
      decreases MaxLog - log + 1, 1
    {
      this.hasher := hasher;
      metadata := new u8[0];
      data := new (K, V)[0];
      new;
      CopyFromIterators(l, r, log);
    }

    /** HashMap(l, r, hasher): as above with l.get_log_capacity() slots. */
    constructor FromRangeSameCapacity(l: IteratorBase<K, V>, r: IteratorBase<K, V>, hasher: K -> u64)
      requires Range(l, r)
      ensures Filled(hasher, l.rider.log, l.ElementsUntil(r), |l.ElementsUntil(r)|)
      ensures fresh(metadata) && fresh(data)
      ensures unchanged(l, l.rider, r, r.rider)
    {
      var log := l.GetLogCapacity();
      this.hasher := hasher;
      metadata := new u8[0];
      data := new (K, V)[0];
      new;
      CopyFromIterators(l, r, log);
    }

    /**
     * HashMap(initializer_list, hasher): one more than the least L with
     * 2^L >= the list's length, so that the list fills at most half.
     */
    constructor FromList(list: seq<(K, V)>, hasher: K -> u64)
      requires |list| <= Pow2(MaxLog - 1)
      ensures Valid() && Sound() && this.hasher == hasher
      ensures Contents == InsertAll(map[], list)
      ensures logCapacity >= 1 && 2 * |list| <= Pow2(logCapacity)
      ensures logCapacity == 1 || Pow2(logCapacity) < 4 * |list|
    {
      var log: nat := 0;
      while Pow2(log) < |list|
        invariant log < MaxLog
        invariant log == 0 || Pow2(log - 1) < |list|
        decreases MaxLog - log
      {
        log := log + 1;
      }
      log := log + 1;
      Pow2Monotone(log, MaxLog);
      this.hasher := hasher;
      size := 0;
      full := 0;
      logCapacity := 0;
      metadata := new u8[0];
      data := new (K, V)[0];
      Contents := map[];
      Index := map[];
      new;
      CopyFromList(list, log);
    }

    // -------------------------------------------------------------------
    // Rebuilding

    /** full_clear(): release both arrays; null pointers are modelled as empty arrays. */
    method FullClear()
      modifies this
      ensures hasher == old(hasher)
      ensures size == 0 && full == 0 && logCapacity == 0
      ensures metadata.Length == 0 && data.Length == 0
      ensures Contents == map[] && Index == map[]
    {
      size := 0;
      full := 0;
      logCapacity := 0;
      metadata := new u8[0];
      data := new (K, V)[0];
      Contents := map[];
      Index := map[];
    }

    /** `log_capacity_ = log; metadata_ = new ...; memset(...); data_ = new ...` on a cleared table. */
    method Allocate(log: nat)
      requires log <= MaxLog && size == 0 && full == 0
      modifies this
      ensures Valid() && Sound() && hasher == old(hasher)
      ensures Contents == map[] && size == 0 && full == 0 && logCapacity == log
      ensures DeletedCount(metadata[..]) == 0
      ensures fresh(metadata) && fresh(data)
    {
      logCapacity := log;
      metadata := new u8[Pow2(log)](_ => GetEmpty());
      data := new (K, V)[Pow2(log)];
      Contents := map[];
      Index := map[];
      EmptyTable(hasher, metadata[..], data[..]);
    }

    /**
     * What the copy loops know after inserting `inserted`, out of `total`
     * entries, into a table opened with 2^log slots: the table holds their
     * first-wins map, has no tombstones, and has not grown unless the
     * entries overflow half of 2^log.
     */
    ghost predicate Filled(hasher0: K -> u64, log: nat, inserted: seq<(K, V)>, total: nat)
      reads this, metadata, data
    {
      && Valid() && Sound() && hasher == hasher0
      && Contents == InsertAll(map[], inserted)
      && full == size && size <= |inserted| && DeletedCount(metadata[..]) == 0
      && logCapacity >= log && (total <= Pow2(log) / 2 ==> logCapacity == log)
    }

    /** The body of both copy loops: `insert(*l)` for the next of `total` entries. */
    method InsertNext(kv: (K, V), ghost log: nat, ghost inserted: seq<(K, V)>, ghost total: nat, ghost avoid: set<object>)
      requires log <= MaxLog && Filled(hasher, log, inserted, total)
      requires metadata !in avoid && data !in avoid
      requires |inserted| < total <= Pow2(MaxLog) / 2
      modifies this, metadata, data
      ensures Filled(old(hasher), log, inserted + [kv], total)
      ensures metadata !in avoid && data !in avoid
      ensures (metadata == old(metadata) && data == old(data)) || (fresh(metadata) && fresh(data))
      decreases MaxLog - log, 6
    {
      SoundHasEmpty();
      Insert(kv);
      InsertAllSnoc(map[], inserted, kv);
    }

    /**
     * copy_from_iterators_generic(l, r, log): rebuild with 2^log slots and
     * insert the entries of [l, r) one after the other.
     */
    method CopyFromIterators(l: IteratorBase<K, V>, r: IteratorBase<K, V>, log: nat)
      requires log <= MaxLog && Range(l, r)
      modifies this
      ensures Filled(old(hasher), log, old(l.ElementsUntil(r)), |old(l.ElementsUntil(r))|)
      ensures fresh(metadata) && fresh(data)
      ensures unchanged(l, l.rider, r, r.rider)
      decreases MaxLog - log + 1, 0
    {
      var it, all := BeginCopy(l, r, log);
      ghost var consumed: nat := 0;
      while !it.Equal(r)
        invariant Copying(it, r, log, all, consumed)
        invariant Filled(old(hasher), log, all[..consumed], |all|)
        invariant fresh(metadata) && fresh(data)
        invariant hasher == old(hasher)
        decreases it.Span(r)
      {
        consumed := CopyStep(it, r, log, all, consumed);
      }
      assert all[..consumed] == all;
    }

    /**
     * The start of copy_from_iterators_generic: the by-value copy of l that
     * the loop advances, then full_clear() and a fresh table of 2^log slots.
     */
    method BeginCopy(l: IteratorBase<K, V>, r: IteratorBase<K, V>, log: nat)
      returns (it: IteratorBase<K, V>, ghost all: seq<(K, V)>)
      requires l.Valid() && l.Reaches(r)
      requires log <= MaxLog && |l.ElementsUntil(r)| <= Pow2(MaxLog) / 2
      modifies this
      ensures fresh(it) && fresh(it.rider) && all == old(l.ElementsUntil(r))
      ensures Copying(it, r, log, all, 0) && Filled(old(hasher), log, all[..0], |all|)
      ensures fresh(metadata) && fresh(data) && hasher == old(hasher)
    {
      it := PassByValue(l, r);
      all := OpenTable(it, r, log);
    }

    /** full_clear() and a fresh table of 2^log slots, with [l, r) still to be inserted. */
    method OpenTable(l: IteratorBase<K, V>, r: IteratorBase<K, V>, log: nat) returns (ghost all: seq<(K, V)>)
      requires l.Valid() && l.Reaches(r)
      requires log <= MaxLog && |l.ElementsUntil(r)| <= Pow2(MaxLog) / 2
      modifies this
      ensures all == old(l.ElementsUntil(r))
      ensures Copying(l, r, log, all, 0) && Filled(old(hasher), log, all[..0], |all|)
      ensures fresh(metadata) && fresh(data) && hasher == old(hasher)
    {
      all := l.ElementsUntil(r);
      Reset(log, |all|);
    }

    /** full_clear() followed by the allocation of 2^log empty slots. */
    method Reset(log: nat, ghost total: nat)
      requires log <= MaxLog
      modifies this
      ensures Filled(old(hasher), log, [], total)
      ensures fresh(metadata) && fresh(data) && hasher == old(hasher)
    {
      FullClear();
      Allocate(log);
    }

    /** The state of the copy loop after `consumed` of the entries `all` of [l, r). */
    ghost predicate Copying(l: IteratorBase<K, V>, r: IteratorBase<K, V>, log: nat, all: seq<(K, V)>, consumed: nat)
      reads this, metadata, data, l, l.rider, l.rider.metadata, l.data, r, r.rider, r.rider.metadata
    {
      && l.Valid() && l.Reaches(r)
      && consumed <= |all| && l.ElementsUntil(r) == all[consumed..]
      && metadata != l.rider.metadata && metadata != r.rider.metadata && data != l.data
      && log <= MaxLog && |all| <= Pow2(MaxLog) / 2
    }

    /** One turn of the copy loop: `insert(*l); ++l`. */
    method CopyStep(l: IteratorBase<K, V>, r: IteratorBase<K, V>, log: nat, ghost all: seq<(K, V)>, ghost consumed: nat)
      returns (ghost next: nat)
      requires Copying(l, r, log, all, consumed) && !l.Equal(r) && l != r && l.rider != r.rider
      requires Filled(hasher, log, all[..consumed], |all|)
      modifies this, metadata, data, l, l.rider
      ensures Copying(l, r, log, all, next) && next == consumed + 1
      ensures Filled(old(hasher), log, all[..next], |all|)
      ensures hasher == old(hasher) && l.Span(r) < old(l.Span(r))
      ensures (metadata == old(metadata) && data == old(data)) || (fresh(metadata) && fresh(data))
      decreases MaxLog - log, 8
    {
      InsertCurrent(l, r, log, all, consumed);
      AdvanceCopy(l, r, log, all, consumed);
      next := consumed + 1;
    }

    /** `++l`: the range [l, r) loses the entry just inserted; the table is untouched. */
    method AdvanceCopy(l: IteratorBase<K, V>, r: IteratorBase<K, V>, log: nat, ghost all: seq<(K, V)>, ghost consumed: nat)
      requires Copying(l, r, log, all, consumed) && !l.Equal(r) && l != r && l.rider != r.rider
      requires consumed < |all| && Filled(hasher, log, all[..consumed + 1], |all|)
      modifies l, l.rider
      ensures Copying(l, r, log, all, consumed + 1)
      ensures Filled(hasher, log, all[..consumed + 1], |all|)
      ensures l.Span(r) < old(l.Span(r))
    {
      Advance(l, r);
      TakeDropStep(all, consumed);
    }

    /** `insert(*l)`: the entry under l joins the table; the iterators are untouched. */
    method InsertCurrent(l: IteratorBase<K, V>, r: IteratorBase<K, V>, log: nat, ghost all: seq<(K, V)>, ghost consumed: nat)
      requires Copying(l, r, log, all, consumed) && !l.Equal(r)
      requires Filled(hasher, log, all[..consumed], |all|)
      modifies this, metadata, data
      ensures Copying(l, r, log, all, consumed) && consumed < |all|
      ensures Filled(old(hasher), log, all[..consumed + 1], |all|)
      ensures (metadata == old(metadata) && data == old(data)) || (fresh(metadata) && fresh(data))
      decreases MaxLog - log, 7
    {
      var kv := l.Current();
      assert kv == all[consumed];
      TakeDropStep(all, consumed);
      InsertNext(kv, log, all[..consumed], |all|, {l.rider.metadata, r.rider.metadata, l.data});
    }

    /** The same loop over an initializer list. */
    method CopyFromList(list: seq<(K, V)>, log: nat)
      requires log <= MaxLog && |list| <= Pow2(MaxLog) / 2
      modifies this
      ensures Filled(old(hasher), log, list, |list|)
      decreases MaxLog - log + 1, 0
    {
      FullClear();
      Allocate(log);
      var i := 0;
      while i < |list|
        invariant 0 <= i <= |list|
        invariant fresh(metadata) && fresh(data)
        invariant Filled(old(hasher), log, list[..i], |list|)
      {
        TakeDropStep(list, i);
        InsertNext(list[i], log, list[..i], |list|, {});
        i := i + 1;
      }
      assert list[..|list|] == list;
    }

    /**
     * The temporary of resize(L): a table of 2^L slots built from
     * begin()..end(), which holds the same entries with no tombstones.
     */
    method Rebuilt(newLog: nat) returns (t: HashMap<K, V>)
      requires Valid()
      requires newLog <= MaxLog && size <= Pow2(newLog) / 2
      ensures fresh(t) && fresh(t.metadata) && fresh(t.data)
      ensures t.Valid() && t.hasher == hasher && t.Contents == Contents
      ensures t.size == size && t.logCapacity == newLog
      ensures DeletedCount(t.metadata[..]) == 0 && NonEmptyCount(t.metadata[..]) == size
      decreases MaxLog - newLog + 1, 2
    {
      var l, r := Walk();
      Pow2Monotone(newLog, MaxLog);
      t := new HashMap.FromRange(l, r, newLog, hasher);
    }

    /** `begin(), end()` as resize passes them: the range of all entries of the table. */
    method Walk() returns (l: IteratorBase<K, V>, r: IteratorBase<K, V>)
      requires Valid()
      ensures fresh(l) && fresh(l.rider) && fresh(r) && fresh(r.rider)
      ensures l.Valid() && l.Reaches(r) && l != r && l.rider != r.rider
      ensures InsertAll(map[], l.ElementsUntil(r)) == Contents && |l.ElementsUntil(r)| == size
    {
      ghost var meta0, slots0 := metadata[..], data[..];
      FullFromCount(meta0, 0);
      assert meta0[0..] == meta0;
      AllEntries(meta0, slots0, Index, Contents);
      l := Begin();
      r := End();
      assert l.ElementsUntil(r) == Gather(slots0, FullFrom(meta0, 0));
    }

    /**
     * resize(L): swap size_, log_capacity_ and both arrays with those of
     * the rebuilt temporary, which is then destroyed; full_ stays as it was.
     */
    method Resize(newLog: nat)
      requires Valid()
      requires newLog <= MaxLog && size <= Pow2(newLog) / 2
      modifies this
      ensures Valid() && hasher == old(hasher) && Contents == old(Contents)
      ensures size == old(size) && full == old(full) && logCapacity == newLog
      ensures DeletedCount(metadata[..]) == 0 && NonEmptyCount(metadata[..]) == size
      ensures fresh(metadata) && fresh(data)
      decreases MaxLog - newLog + 1, 3
    {
      var rebuilt := Rebuilt(newLog);
      SwapIn(rebuilt);
    }

    /** The swaps of resize: take size_, log_capacity_ and both arrays from t; full_ stays. */
    method SwapIn(t: HashMap<K, V>)
      requires t.Valid() && t != this && t.hasher == hasher
      modifies this
      ensures Valid() && hasher == old(hasher) && full == old(full)
      ensures Contents == t.Contents && size == t.size && logCapacity == t.logCapacity
      ensures metadata == t.metadata && data == t.data
    {
      var m, d := t.metadata, t.data;
      ghost var meta, slots := m[..], d[..];
      size := t.size;
      logCapacity := t.logCapacity;
      metadata := m;
      data := d;
      Contents := t.Contents;
      Index := t.Index;
      assert metadata[..] == meta && data[..] == slots;
    }

    // -------------------------------------------------------------------
    // Probing

    /**
     * find_generic(key): follow the key's probe path through fingerprint
     * matches until the key or an empty byte. Reports the key's slot, or
     * the empty slot that ends the path.
     */
    method FindGeneric(key: K) returns (found: bool, slot: u64)
      requires Valid()
      requires key in Contents || HasEmpty()
      ensures slot as nat < metadata.Length
      ensures found <==> key in Contents
      ensures found ==> slot as nat == SlotOf(key) && metadata[slot] == GetHash(hasher(key)) && data[slot] == (key, Contents[key])
      ensures !found ==> metadata[slot] == GetEmpty() && PathClear(metadata[..], Home(hasher(key), metadata.Length), slot as nat)
    {
      var hash := hasher(key);
      var rider := new Rider(FindMode, metadata, hash, Mask(), logCapacity);
      ghost var meta := metadata[..];
      ghost var cap := metadata.Length;
      ghost var home := Home(hash, cap);
      ghost var slots := data[..];
      ghost var w := ProbeTarget(key);
      ghost var hit := key in Contents;
      assert hit ==> slots[w].0 == key && meta[w] == GetHash(hash) && PathClear(meta, home, w);
      assert !hit ==> meta[w] == GetEmpty();
      ghost var n: nat := 0;
      while true
        invariant rider.Valid() && rider.Tracks() && rider.bytes == meta && rider.metadata == metadata && rider.Cap() == cap
        invariant rider.mode == FindMode && rider.initialHash == GetHash(hash)
        invariant n <= Dist(home, w, cap)
        invariant rider.Upcoming() == ProbeSlot(home, n, cap)
        invariant forall d :: 0 <= d < n ==> meta[ProbeSlot(home, d, cap)] != GetEmpty()
        decreases Dist(home, w, cap) - n
      {
        var p: u64, c: Category;
        ghost var skipped: nat;
        p, c, skipped := rider.Next();
        FindStep(meta, slots, key, GetHash(hash), home, w, hit, n, skipped, c, p as nat);
        ghost var t := n + skipped;
        if c == EmptySlot {
          return false, p;
        } else if c == HashSlot {
          if data[p].0 == key {
            assert Owned(meta, slots, Index, p as nat);
            return true, p;
          }
        }
        n := t + 1;
      }
    }

    /**
     * A slot that ends every probe for key: its own slot if present,
     * otherwise some empty slot.
     */
    ghost function ProbeTarget(key: K): (w: nat)
      reads this, metadata, data
      requires Valid() && (key in Contents || HasEmpty())
      ensures w < metadata.Length
      ensures key in Contents ==> w == SlotOf(key) && metadata[w] == GetHash(hasher(key)) && data[w].0 == key
      ensures key in Contents ==> PathClear(metadata[..], Home(hasher(key), metadata.Length), w)
      ensures key !in Contents ==> metadata[w] == GetEmpty()
    {
      if key in Contents then
        var i := SlotOf(key);
        assert Probed(hasher, metadata[..], data[..], i);
        i
      else
        var i :| 0 <= i < metadata.Length && metadata[i] == GetEmpty(); i
    }

    /**
     * find_allow_deleted_generic(key): like find_generic, but a miss
     * reports the first tombstone on the path if there is one before the
     * empty byte that ends it, i.e. the first slot on the path that is not
     * full.
     */
    method FindAllowDeletedGeneric(key: K) returns (found: bool, slot: u64)
      requires Valid()
      requires key in Contents || HasEmpty()
      ensures slot as nat < metadata.Length
      ensures found <==> key in Contents
      ensures found ==> slot as nat == SlotOf(key) && data[slot] == (key, Contents[key])
      ensures !found ==> !IsFull(metadata[slot]) && PathFull(metadata[..], Home(hasher(key), metadata.Length), slot as nat)
    {
      var hash := hasher(key);
      var rider := new Rider(InsertMode, metadata, hash, Mask(), logCapacity);
      var notFoundEmptyPosition := true;
      var emptyPosition: u64 := 0;
      ghost var meta := metadata[..];
      ghost var cap := metadata.Length;
      ghost var home := Home(hash, cap);
      ghost var slots := data[..];
      ghost var w := ProbeTarget(key);
      ghost var hit := key in Contents;
      assert hit ==> slots[w].0 == key && meta[w] == GetHash(hash) && PathClear(meta, home, w);
      assert !hit ==> meta[w] == GetEmpty();
      ghost var n: nat := 0;
      ghost var e: nat := 0;
      while true
        invariant rider.Valid() && rider.Tracks() && rider.bytes == meta && rider.metadata == metadata && rider.Cap() == cap
        invariant rider.mode == InsertMode && rider.initialHash == GetHash(hash)
        invariant n <= Dist(home, w, cap)
        invariant rider.Upcoming() == ProbeSlot(home, n, cap)
        invariant Scanned(meta, home, n, notFoundEmptyPosition, e, emptyPosition as nat)
        decreases Dist(home, w, cap) - n
      {
        var p: u64, c: Category;
        ghost var skipped: nat;
        p, c, skipped := rider.Next();
        FindAllowDeletedStep(meta, slots, key, GetHash(hash), home, w, hit, n, notFoundEmptyPosition, e, emptyPosition as nat, skipped, c, p as nat);
        ghost var t := n + skipped;
        if c == EmptySlot {
          if notFoundEmptyPosition {
            emptyPosition := p;
          }
          return false, emptyPosition;
        } else if c == DeletedSlot {
          if notFoundEmptyPosition {
            emptyPosition := p;
            notFoundEmptyPosition := false;
            e := t;
          }
        } else if c == HashSlot {
          if data[p].0 == key {
            assert Owned(meta, slots, Index, p as nat);
            return true, p;
          }
        }
        n := t + 1;
      }
    }

    // -------------------------------------------------------------------
    // Updates

    /**
     * insert_generic(index, key_val): write the entry into a slot that a
     * miss reported, count it in size_ and full_, and double the capacity
     * when full_ exceeds half of it.
     */
    method InsertGeneric(index: u64, kv: (K, V))
      requires Valid()
      requires index as nat < metadata.Length && !IsFull(metadata[index]) && kv.0 !in Contents
      requires PathClear(metadata[..], Home(hasher(kv.0), metadata.Length), index as nat)
      requires logCapacity < MaxLog || full + 1 <= Cap() / 2
      modifies this, metadata, data
      ensures Valid() && hasher == old(hasher)
      ensures Contents == old(Contents)[kv.0 := kv.1]
      ensures size == old(size) + 1 && full == old(full) + 1
      ensures logCapacity == if full > Pow2(old(logCapacity)) / 2 then old(logCapacity) + 1 else old(logCapacity)
      ensures full <= Pow2(old(logCapacity)) / 2 ==>
        && metadata == old(metadata) && data == old(data)
        && metadata[..] == old(metadata[..])[index := GetHash(hasher(kv.0))]
        && data[..] == old(data[..])[index := kv]
        && NonEmptyCount(metadata[..]) <= old(NonEmptyCount(metadata[..])) + 1
      ensures full > Pow2(old(logCapacity)) / 2 ==>
        fresh(metadata) && fresh(data) && NonEmptyCount(metadata[..]) == size
      ensures DeletedCount(metadata[..]) <= old(DeletedCount(metadata[..]))
      ensures old(Sound()) ==> Sound()
      decreases MaxLog - logCapacity, 4
    {
      Place(index, kv);
      if full > Pow2(logCapacity) / 2 {
        Resize(logCapacity + 1);
      }
    }

    /** The first part of insert_generic: the entry goes into slot index and both counters grow. */
    method Place(index: u64, kv: (K, V))
      requires Valid()
      requires index as nat < metadata.Length && !IsFull(metadata[index]) && kv.0 !in Contents
      requires PathClear(metadata[..], Home(hasher(kv.0), metadata.Length), index as nat)
      modifies this, metadata, data
      ensures Valid() && hasher == old(hasher) && logCapacity == old(logCapacity)
      ensures Contents == old(Contents)[kv.0 := kv.1]
      ensures size == old(size) + 1 && full == old(full) + 1
      ensures metadata == old(metadata) && data == old(data)
      ensures metadata[..] == old(metadata[..])[index := GetHash(hasher(kv.0))]
      ensures data[..] == old(data[..])[index := kv]
      ensures NonEmptyCount(metadata[..]) <= old(NonEmptyCount(metadata[..])) + 1
      ensures DeletedCount(metadata[..]) <= old(DeletedCount(metadata[..]))
    {
      ghost var meta0 := metadata[..];
      ghost var slots0 := data[..];
      InsertKeepsInv(hasher, meta0, slots0, Index, Contents, index as nat, kv.0, kv.1);
      CountAfterFill(meta0, index as nat, GetHash(hasher(kv.0)));
      size := size + 1;
      full := full + 1;
      metadata[index] := GetHash(hasher(kv.0));
      data[index] := kv;
      Contents := Contents[kv.0 := kv.1];
      Index := Index[kv.0 := index as nat];
      assert metadata[..] == meta0[index as nat := GetHash(hasher(kv.0))];
      assert data[..] == slots0[index as nat := kv];
    }

    /**
     * erase_generic(index): turn the slot of a present key into a
     * tombstone, and halve the capacity when size_ drops below an eighth
     * of it. full_ is left as it was.
     */
    method EraseGeneric(index: u64)
      requires Valid()
      requires index as nat < metadata.Length && IsFull(metadata[index])
      modifies this, metadata
      ensures Valid() && hasher == old(hasher)
      ensures Contents == old(Contents - {data[index].0})
      ensures size == old(size) - 1 && full == old(full)
      ensures logCapacity == if size < Pow2(old(logCapacity)) / 8 then old(logCapacity) - 1 else old(logCapacity)
      ensures size >= Pow2(old(logCapacity)) / 8 ==>
        && metadata == old(metadata) && data == old(data)
        && metadata[..] == old(metadata[..])[index := GetDeleted()]
      ensures size < Pow2(old(logCapacity)) / 8 ==> logCapacity >= 2 && fresh(metadata) && fresh(data)
      ensures old(Sound()) ==> Sound()
    {
      ghost var meta0 := metadata[..];
      ghost var key := data[index].0;
      assert Owned(meta0, data[..], Index, index as nat);
      EraseKeepsInv(hasher, meta0, data[..], Index, Contents, key);
      CountAfterErase(meta0, index as nat);
      size := size - 1;
      metadata[index] := GetDeleted();
      Contents := Contents - {key};
      Index := Index - {key};
      assert metadata[..] == meta0[index as nat := GetDeleted()];
      if size < Pow2(logCapacity) / 8 {
        Pow2AtLeastEight(logCapacity);
        assert Pow2(logCapacity) == 2 * Pow2(logCapacity - 1);
        Resize(logCapacity - 1);
      }
    }

    /** insert(key_val): a present key keeps its value; an absent one is added. */
    method Insert(kv: (K, V))
      requires Valid()
      requires kv.0 in Contents || (HasEmpty() && (logCapacity < MaxLog || full < Cap() / 2))
      modifies this, metadata, data
      ensures Valid() && hasher == old(hasher)
      ensures Contents == InsertIfAbsent(old(Contents), kv)
      ensures kv.0 in old(Contents) ==> unchanged(this) && unchanged(metadata) && unchanged(data)
      ensures kv.0 !in old(Contents) ==>
        && size == old(size) + 1 && full == old(full) + 1
        && logCapacity == if full > Pow2(old(logCapacity)) / 2 then old(logCapacity) + 1 else old(logCapacity)
      ensures kv.0 !in old(Contents) && full <= Pow2(old(logCapacity)) / 2 ==>
        NonEmptyCount(metadata[..]) <= old(NonEmptyCount(metadata[..])) + 1
      ensures (metadata == old(metadata) && data == old(data)) || (fresh(metadata) && fresh(data))
      ensures DeletedCount(metadata[..]) <= old(DeletedCount(metadata[..]))
      ensures old(Sound()) ==> Sound()
      decreases MaxLog - logCapacity, 5
    {
      var found, slot := FindAllowDeletedGeneric(kv.0);
      if !found {
        InsertGeneric(slot, kv);
      }
    }

    /** erase(key): remove the key if present. */
    method Erase(key: K)
      requires Valid()
      requires key in Contents || HasEmpty()
      modifies this, metadata
      ensures Valid() && hasher == old(hasher)
      ensures Contents == old(Contents) - {key}
      ensures key !in old(Contents) ==> unchanged(this) && unchanged(metadata)
      ensures key in old(Contents) ==>
        && size == old(size) - 1 && full == old(full)
        && logCapacity == if size < Pow2(old(logCapacity)) / 8 then old(logCapacity) - 1 else old(logCapacity)
      ensures key in old(Contents) && size >= Pow2(old(logCapacity)) / 8 ==>
        metadata[..] == old(metadata[..])[old(SlotOf(key)) := GetDeleted()]
      ensures old(Sound()) ==> Sound()
    {
      var found, slot := FindGeneric(key);
      if found {
        EraseGeneric(slot);
      }
    }

    /**
     * operator[](key): insert (key, ValueType()) if absent, then find the
     * key again, since the insert may have moved it, and return its slot,
     * whose value the caller may assign through. `init` stands for
     * ValueType().
     */
    method Subscript(key: K, init: V) returns (slot: u64)
      requires Valid()
      requires key in Contents || (HasEmpty() && (logCapacity < MaxLog || full < Cap() / 2))
      modifies this, metadata, data
      ensures Valid() && hasher == old(hasher)
      ensures Contents == if key in old(Contents) then old(Contents) else old(Contents)[key := init]
      ensures slot as nat < data.Length && slot as nat == SlotOf(key) && data[slot] == (key, Contents[key])
      ensures key in old(Contents) ==> unchanged(this) && unchanged(metadata) && unchanged(data)
      ensures key !in old(Contents) ==>
        && size == old(size) + 1 && full == old(full) + 1
        && logCapacity == if full > Pow2(old(logCapacity)) / 2 then old(logCapacity) + 1 else old(logCapacity)
      ensures key !in old(Contents) && full <= Pow2(old(logCapacity)) / 2 ==>
        NonEmptyCount(metadata[..]) <= old(NonEmptyCount(metadata[..])) + 1
      ensures (metadata == old(metadata) && data == old(data)) || (fresh(metadata) && fresh(data))
      ensures DeletedCount(metadata[..]) <= old(DeletedCount(metadata[..]))
      ensures old(Sound()) ==> Sound()
    {
      var found, p := FindAllowDeletedGeneric(key);
      if !found {
        InsertGeneric(p, (key, init));
      }
      found, p := FindAllowDeletedGeneric(key);
      slot := p;
    }

    /**
     * `t[key] = v`: the assignment through the reference operator[]
     * returns, which writes the value half of the key's slot.
     */
    method SetValue(slot: u64, key: K, v: V)
      requires Valid() && key in Contents && slot as nat == SlotOf(key)
      modifies this, data
      ensures Valid() && Contents == old(Contents)[key := v]
      ensures hasher == old(hasher) && size == old(size) && full == old(full) && logCapacity == old(logCapacity)
      ensures metadata == old(metadata) && data == old(data) && metadata[..] == old(metadata[..])
      ensures data[..] == old(data[..])[slot := (key, v)]
      ensures old(Sound()) ==> Sound()
    {
      AssignKeepsInv(hasher, metadata[..], data[..], Index, Contents, key, v);
      data[slot] := (key, v);
      Contents := Contents[key := v];
    }

    /** clear(): back to two empty slots with both counters at zero. */
    method Clear()
      modifies this
      ensures Valid() && Sound() && hasher == old(hasher)
      ensures Contents == map[] && size == 0 && full == 0 && logCapacity == 1
      ensures fresh(metadata) && fresh(data)
    {
      size := 0;
      full := 0;
      Allocate(1);
    }

    /**
     * operator=(other): nothing when both arrays are already shared;
     * otherwise release the own arrays and copy all fields, full_
     * included, and both arrays slot by slot.
     */
    method Assign(other: HashMap<K, V>)
      requires other.Valid()
      modifies this
      ensures old(metadata == other.metadata && data == other.data) ==> unchanged(this)
      ensures old(metadata != other.metadata || data != other.data) ==>
        && Valid() && hasher == other.hasher && Contents == other.Contents
        && size == other.size && full == other.full && logCapacity == other.logCapacity
        && metadata[..] == other.metadata[..] && data[..] == other.data[..]
        && (other.Sound() ==> Sound())
        && fresh(metadata) && fresh(data)
    {
      if metadata == other.metadata && data == other.data {
        return;
      }
      AssignFields(other);
    }

    /** The part of operator= after the self-assignment test. */
    method AssignFields(other: HashMap<K, V>)
      requires other.Valid() && other != this
      modifies this
      ensures Valid() && hasher == other.hasher && Contents == other.Contents
      ensures size == other.size && full == other.full && logCapacity == other.logCapacity
      ensures metadata[..] == other.metadata[..] && data[..] == other.data[..]
      ensures other.Sound() ==> Sound()
      ensures fresh(metadata) && fresh(data)
    {
      FullClear();
      hasher := other.hasher;
      size := other.size;
      full := other.full;
      logCapacity := other.logCapacity;
      metadata, data := CopySlots(other.metadata, other.data);
      Contents := other.Contents;
      Index := other.Index;
    }

    // -------------------------------------------------------------------
    // Queries

    /** size(). */
    function Size(): (n: nat)
      reads this, metadata, data
      requires Valid()
      ensures n == |Contents|
    {
      size
    }

    /** empty(): `!size_`. */
    function Empty(): (b: bool)
      reads this, metadata, data
      requires Valid()
      ensures b <==> Contents == map[]
    {
      size == 0
    }

    /** at(key): the key's value, or out_of_range on a miss. */
    method At(key: K) returns (r: Lookup<V>)
      requires Valid()
      requires key in Contents || HasEmpty()
      ensures r == if key in Contents then Found(Contents[key]) else OutOfRange
    {
      var found, slot := FindGeneric(key);
      if found {
        return Found(data[slot].1);
      }
      return OutOfRange;
    }

    /** end(): an iterator flagged as the end. */
    method End() returns (it: IteratorBase<K, V>)
      requires Valid()
      ensures fresh(it) && fresh(it.rider) && it.Valid() && it.isEnd
      ensures it.rider.metadata == metadata && it.data == data && it.rider.log == logCapacity
    {
      it := new IteratorBase(metadata, 0, Mask(), data, true, logCapacity);
    }

    /**
     * begin(): end() for an empty table, otherwise an iterator that
     * advances from slot 0 to the first full slot; the walk from there
     * lists every full slot in index order.
     */
    method Begin() returns (it: IteratorBase<K, V>)
      requires Valid()
      ensures fresh(it) && fresh(it.rider) && it.Valid()
      ensures it.rider.metadata == metadata && it.data == data && it.rider.log == logCapacity
      ensures it.Remaining() == FullFrom(metadata[..], 0)
      ensures size == 0 ==> it.isEnd
    {
      FullFromCount(metadata[..], 0);
      assert metadata[..][0..] == metadata[..];
      if size == 0 {
        it := End();
        return;
      }
      SomeFull(metadata[..]);
      it := new IteratorBase(metadata, 0, Mask(), data, false, logCapacity);
      FirstFullFromZero(metadata[..], it.rider.currentHash as nat);
    }

    /** find(key): an iterator at the key's slot, or end() on a miss. */
    method Find(key: K) returns (it: IteratorBase<K, V>)
      requires Valid()
      requires key in Contents || HasEmpty()
      ensures fresh(it) && fresh(it.rider) && it.Valid()
      ensures it.rider.metadata == metadata && it.data == data
      ensures it.isEnd <==> key !in Contents
      ensures !it.isEnd ==> it.Current() == (key, Contents[key]) && it.Remaining() == FullFrom(metadata[..], SlotOf(key))
    {
      var found, slot := FindGeneric(key);
      if found {
        ghost var meta := metadata[..];
        HomeOfSlot(slot, metadata.Length);
        it := new IteratorBase(metadata, slot, Mask(), data, false, logCapacity);
        FirstFullAtFull(meta, slot as nat, it.rider.currentHash as nat);
      } else {
        it := End();
      }
    }
  }

  /**
   * The copy constructor as written, applied to a four-slot table holding
   * two keys and no tombstones, followed by two inserts of new keys: full_
   * starts at 0 and reaches only 2, so neither insert grows the table, and
   * afterwards every byte is full. The copy is not Sound, and a later miss
   * would have no empty byte to stop at.
   */
  method CopyAsWrittenThenFill<K(==,0), V(0)>(other: HashMap<K, V>, a: (K, V), b: (K, V)) returns (m: HashMap<K, V>)
    requires other.Valid() && other.logCapacity == 2 && other.size == 2 && DeletedCount(other.metadata[..]) == 0
    requires a.0 !in other.Contents && b.0 !in other.Contents && a.0 != b.0
    ensures m.Valid() && m.logCapacity == 2 && m.size == 4 && m.full == 2
    ensures !m.HasEmpty() && !m.Sound()
  {
    m := new HashMap.CopyAsWritten(other);
    SomeEmpty(m.metadata[..]);
    m.Insert(a);
    SomeEmpty(m.metadata[..]);
    m.Insert(b);
    NoEmpty(m.metadata[..]);
  }

  /**
   * The same two inserts on a copy that carries full_ over: full_ is at
   * least the two keys, so the first insert already pushes it past half of
   * the four slots, the table grows, and an empty byte remains.
   */
  method CopyThenFill<K(==,0), V(0)>(other: HashMap<K, V>, a: (K, V), b: (K, V)) returns (m: HashMap<K, V>)
    requires other.Sound() && other.logCapacity == 2 && other.size == 2
    requires a.0 !in other.Contents && b.0 !in other.Contents && a.0 != b.0
    ensures m.Sound() && m.HasEmpty() && m.size == 4 && m.logCapacity >= 3
  {
    m := new HashMap.Copy(other);
    m.SoundHasEmpty();
    m.Insert(a);
    m.SoundHasEmpty();
    m.Insert(b);
    m.SoundHasEmpty();
  }

  /**
   * `t[key] = v` followed by `t.at(key)`: the value read back is the one
   * assigned, whether the key was present before or not.
   */
  method AssignThenAt<K(==,0), V(0)>(t: HashMap<K, V>, key: K, v: V, init: V) returns (r: Lookup<V>)
    requires t.Sound() && (t.logCapacity < MaxLog || t.full < t.Cap() / 2)
    modifies t, t.metadata, t.data
    ensures r == Found(v)
    ensures t.Sound() && t.Contents == old(t.Contents)[key := v]
  {
    t.SoundHasEmpty();
    var slot := t.Subscript(key, init);
    t.SetValue(slot, key, v);
    r := t.At(key);
  }

  /**
   * One call of next() in find_generic, on the probe path of key from home.
   * The rider has passed n slots that are not empty, then stepped over
   * `skipped` slots and stopped at p with category c. w is the slot that
   * ends the path: the key's own slot when hit, else an empty slot. An
   * empty stop proves the key absent; any other stop is a fingerprint
   * match, and if p does not hold the key the path goes on before w.
   */
  lemma FindStep<K, V>(meta: seq<u8>, slots: seq<(K, V)>, key: K, fp: u8, home: nat, w: nat, hit: bool,
                       n: nat, skipped: nat, c: Category, p: nat)
    requires |meta| == |slots| && home < |meta| && w < |meta| && n <= Dist(home, w, |meta|) && skipped < |meta|
    requires hit ==> slots[w].0 == key && meta[w] == fp && IsFull(fp) && PathClear(meta, home, w)
    requires !hit ==> meta[w] == GetEmpty()
    requires forall d :: 0 <= d < n ==> meta[ProbeSlot(home, d, |meta|)] != GetEmpty()
    requires forall d :: 0 <= d < skipped ==> !Wanted(FindMode, fp, meta[ProbeSlot(ProbeSlot(home, n, |meta|), d, |meta|)])
    requires p == ProbeSlot(ProbeSlot(home, n, |meta|), skipped, |meta|)
    requires Stop(FindMode, fp, meta[p]) == Some(c)
    ensures n + skipped <= Dist(home, w, |meta|) && p == ProbeSlot(home, n + skipped, |meta|)
    ensures c == EmptySlot ==> !hit && meta[p] == GetEmpty() && PathClear(meta, home, p)
    ensures c != EmptySlot ==> c == HashSlot && meta[p] == fp
    ensures c != EmptySlot && slots[p].0 != key ==>
      && n + skipped + 1 <= Dist(home, w, |meta|)
      && Succ(p, |meta|) == ProbeSlot(home, n + skipped + 1, |meta|)
      && forall d :: 0 <= d < n + skipped + 1 ==> meta[ProbeSlot(home, d, |meta|)] != GetEmpty()
  {
    var cap := |meta|;
    RiderStep(meta, FindMode, fp, home, n, skipped, w);
    var t := n + skipped;
    DistOfProbe(home, t, cap);
    ClearAfterRide(meta, FindMode, fp, home, n, t);
    if hit {
      ClearUpTo(meta, home, w, t);
    }
    if c != EmptySlot && slots[p].0 != key {
      assert p != w;
      ProbeNext(home, t, cap);
    }
  }

  /**
   * What find_allow_deleted_generic knows after n steps from home: while
   * no tombstone has been seen (notFound) every slot passed is full;
   * afterwards pos is the first tombstone, at step e, and the slots before
   * it are full.
   */
  ghost predicate Scanned(meta: seq<u8>, home: nat, n: nat, notFound: bool, e: nat, pos: nat)
    requires home < |meta| && n <= |meta|
  {
    && (notFound ==> forall d :: 0 <= d < n ==> IsFull(meta[ProbeSlot(home, d, |meta|)]))
    && (!notFound ==> e < n && pos == ProbeSlot(home, e, |meta|) && meta[pos] == GetDeleted() && PathFull(meta, home, pos))
  }

  /**
   * One call of next() in find_allow_deleted_generic. As in FindStep, but
   * the rider also stops at tombstones, so every skipped slot is full. An
   * empty stop proves the key absent and ends the scan at the first
   * tombstone or else at the empty slot; a tombstone or a fingerprint
   * match that is not the key lets the scan go on.
   */
  lemma FindAllowDeletedStep<K, V>(meta: seq<u8>, slots: seq<(K, V)>, key: K, fp: u8, home: nat, w: nat, hit: bool,
                                   n: nat, notFound: bool, e: nat, pos: nat, skipped: nat, c: Category, p: nat)
    requires |meta| == |slots| && home < |meta| && w < |meta| && n <= Dist(home, w, |meta|) && skipped < |meta|
    requires hit ==> slots[w].0 == key && meta[w] == fp && IsFull(fp) && PathClear(meta, home, w)
    requires !hit ==> meta[w] == GetEmpty()
    requires Scanned(meta, home, n, notFound, e, pos)
    requires forall d :: 0 <= d < skipped ==> !Wanted(InsertMode, fp, meta[ProbeSlot(ProbeSlot(home, n, |meta|), d, |meta|)])
    requires p == ProbeSlot(ProbeSlot(home, n, |meta|), skipped, |meta|)
    requires Stop(InsertMode, fp, meta[p]) == Some(c)
    ensures n + skipped <= Dist(home, w, |meta|) && p == ProbeSlot(home, n + skipped, |meta|)
    ensures c == EmptySlot || c == DeletedSlot || c == HashSlot
    ensures c == EmptySlot ==>
      var r := if notFound then p else pos;
      r < |meta| && !hit && !IsFull(meta[r]) && PathFull(meta, home, r)
    ensures c == HashSlot ==> meta[p] == fp
    ensures c == DeletedSlot || (c == HashSlot && slots[p].0 != key) ==>
      && n + skipped + 1 <= Dist(home, w, |meta|)
      && Succ(p, |meta|) == ProbeSlot(home, n + skipped + 1, |meta|)
    ensures c == DeletedSlot ==>
      Scanned(meta, home, n + skipped + 1, false, if notFound then n + skipped else e, if notFound then p else pos)
    ensures c == HashSlot ==> Scanned(meta, home, n + skipped + 1, notFound, e, pos)
  {
    var cap := |meta|;
    RiderStep(meta, InsertMode, fp, home, n, skipped, w);
    var t := n + skipped;
    DistOfProbe(home, t, cap);
    if hit {
      ClearUpTo(meta, home, w, t);
    }
    if c == DeletedSlot || (c == HashSlot && slots[p].0 != key) {
      assert p != w;
      ProbeNext(home, t, cap);
    }
  }

  /** Moving the boundary between the consumed and the remaining entries by one. */
  lemma TakeDropStep<T>(s: seq<T>, i: nat)
    requires i < |s|
    ensures s[..i + 1] == s[..i] + [s[i]] && s[i + 1..] == s[i..][1..]
  {
  }

  /**
   * Walking from begin() visits each full slot once, in increasing index
   * order, as many as size_, and inserting what it visits rebuilds the map.
   */
  lemma IterationVisitsEachEntry<K(0), V(0)>(m: HashMap<K, V>)
    requires m.Valid()
    ensures forall a, b :: 0 <= a < b < |FullFrom(m.metadata[..], 0)| ==> FullFrom(m.metadata[..], 0)[a] < FullFrom(m.metadata[..], 0)[b]
    ensures forall i :: i in FullFrom(m.metadata[..], 0) <==> 0 <= i < m.metadata.Length && IsFull(m.metadata[i])
    ensures |FullFrom(m.metadata[..], 0)| == m.size
    ensures InsertAll(map[], Gather(m.data[..], FullFrom(m.metadata[..], 0))) == m.Contents
  {
    var meta := m.metadata[..];
    FullFromIncreasing(meta, 0);
    forall i
      ensures i in FullFrom(meta, 0) <==> 0 <= i < |meta| && IsFull(meta[i])
    {
      if i >= 0 {
        FullFromMembers(meta, 0, i);
      }
    }
    FullFromCount(meta, 0);
    assert meta[0..] == meta;
    AllEntries(meta, m.data[..], m.Index, m.Contents);
  }
}
