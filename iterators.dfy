/**
 * IteratorBase: a full-mode rider over the metadata array together with
 * the data array, and the flag is_end_ that is raised when a step wraps
 * around to a slot at or before the previous one.
 */
module Iterators {
  import opened Metadata
  import opened Probing
  import opened Slots
  import opened Riders

  class IteratorBase<K, V> {
    const rider: Rider
    const data: array<(K, V)>
    var isEnd: bool

    ghost predicate Valid()
      reads this, rider, rider.metadata
    {
      && rider.Valid() && rider.Tracks()
      && rider.mode == IterMode
      && data.Length == rider.metadata.Length
      && (!isEnd ==> rider.currentHash as int < |rider.bytes| && IsFull(rider.bytes[rider.currentHash]))
    }

    /** The slots this iterator and its successors point to, up to the end. */
    ghost function Remaining(): (r: seq<nat>)
      reads this, rider, rider.metadata
      requires Valid()
      ensures r == [] <==> isEnd
      ensures !isEnd ==> r[0] == rider.currentHash as nat
    {
      if isEnd then [] else FullFrom(rider.bytes, rider.currentHash as nat)
    }

    /** The entries this iterator and its successors dereference to. */
    ghost function Elements(): seq<(K, V)>
      reads this, rider, rider.metadata, data
      requires Valid()
    {
      Gather(data[..], Remaining())
    }

    /**
     * IteratorBase(metadata, index, hash_mask, data, is_end): unless it is
     * an end iterator, it advances to the first full slot at or cyclically
     * after `index & mask`.
     */
    constructor (metadata: array<u8>, index: u64, hashMask: u64, data: array<(K, V)>, isEnd: bool, ghost log: nat)
      requires log <= MaxLog && metadata.Length == Pow2(log) && hashMask as int + 1 == Pow2(log)
      requires data.Length == metadata.Length
      requires !isEnd ==> exists j :: 0 <= j < metadata.Length && IsFull(metadata[j])
      ensures Valid() && fresh(rider)
      ensures rider.metadata == metadata && rider.hashMask == hashMask && rider.log == log && rider.bytes == metadata[..]
      ensures this.data == data && this.isEnd == isEnd
      ensures !isEnd ==> FirstFull(metadata[..], Home(index, metadata.Length), rider.currentHash as nat)
    {
      rider := new Rider(IterMode, metadata, index, hashMask, log);
      this.data := data;
      this.isEnd := isEnd;
      new;
      if !isEnd {
        var i: u64, c: Category;
        ghost var skipped: nat;
        i, c, skipped := rider.Next();
      }
    }

    /**
     * The implicit copy constructor, used whenever an iterator is passed by
     * value: a fresh rider at the same slot, sharing both arrays.
     */
    constructor Copy(other: IteratorBase<K, V>)
      requires other.Valid()
      ensures Valid() && fresh(rider) && Equal(other)
      ensures rider.metadata == other.rider.metadata && rider.hashMask == other.rider.hashMask
      ensures rider.currentHash == other.rider.currentHash && rider.bytes == other.rider.bytes
      ensures data == other.data && isEnd == other.isEnd
      ensures Remaining() == other.Remaining() && Elements() == other.Elements()
    {
      rider := new Rider.Copy(other.rider);
      data := other.data;
      isEnd := other.isEnd;
    }

    /** operator*: the entry in the current slot. */
    function Current(): (kv: (K, V))
      reads this, rider, rider.metadata, data
      requires Valid() && !isEnd
      ensures kv == Elements()[0]
    {
      data[rider.currentHash]
    }

    /**
     * Prefix operator++: step the rider to the next full slot; if that is
     * at or before the previous slot the walk has wrapped around, and the
     * iterator becomes an end iterator.
     */
    method Increment()
      requires Valid() && !isEnd
      modifies this, rider
      ensures Valid() && Remaining() == old(Remaining())[1..]
      ensures Elements() == old(Elements())[1..]
    {
      ghost var meta := rider.bytes;
      ghost var cap := rider.Cap();
      ghost var oldRemaining := Remaining();
      var lastIndex := rider.currentHash;
      var i: u64, c: Category;
      ghost var skipped: nat;
      NextIndexAfterSlot(lastIndex, rider.hashMask);
      i, c, skipped := rider.Next();
      if rider.currentHash <= lastIndex {
        isEnd := true;
      }
      NextFull(meta, lastIndex as nat, old(rider.Upcoming()), skipped, i as nat);
      GatherTail(data[..], oldRemaining);
    }

    /** operator==: end iterators are equal to each other and to nothing else; others compare rider and data. */
    predicate Equal(rhs: IteratorBase<K, V>)
      reads this, rider, rhs, rhs.rider
    {
      if isEnd || rhs.isEnd then isEnd && rhs.isEnd else rider.Same(rhs.rider) && data == rhs.data
    }

    /** get_log_capacity(), forwarded to the rider. */
    method GetLogCapacity() returns (l: nat)
      requires Valid()
      ensures l == rider.log
    {
      l := rider.GetLogCapacity();
    }

    /** r is an end iterator, or points into this iterator's remaining walk over the same arrays. */
    ghost predicate Reaches(r: IteratorBase<K, V>)
      reads this, rider, rider.metadata, r, r.rider, r.rider.metadata
      requires Valid()
    {
      && r.Valid()
      && (!r.isEnd ==>
            && r.data == data
            && r.rider.metadata == rider.metadata
            && r.rider.hashMask == rider.hashMask
            && r.rider.currentHash as nat in Remaining())
    }

    /** How many increments take this iterator to one equal to r. */
    ghost function Span(r: IteratorBase<K, V>): (n: nat)
      reads this, rider, rider.metadata, r, r.rider, r.rider.metadata
      requires Valid() && Reaches(r)
      ensures n <= |Remaining()|
      ensures n == 0 <==> Equal(r)
    {
      if r.isEnd then |Remaining()| else IndexOf(Remaining(), r.rider.currentHash as nat)
    }

    /** The entries of the range [this, r). */
    ghost function ElementsUntil(r: IteratorBase<K, V>): seq<(K, V)>
      reads this, rider, rider.metadata, data, r, r.rider, r.rider.metadata
      requires Valid() && Reaches(r)
    {
      Elements()[..Span(r)]
    }
  }

  /**
   * One `++l` of a loop `for (; l != r; ++l)`: the range [l, r) loses its
   * first entry.
   */
  method Advance<K, V>(l: IteratorBase<K, V>, r: IteratorBase<K, V>)
    requires l.Valid() && l.Reaches(r) && !l.Equal(r) && l != r && l.rider != r.rider
    modifies l, l.rider
    ensures l.Valid() && l.Reaches(r)
    ensures l.Span(r) == old(l.Span(r)) - 1
    ensures l.ElementsUntil(r) == old(l.ElementsUntil(r))[1..]
  {
    ghost var remaining := l.Remaining();
    ghost var elements := l.Elements();
    ghost var span := l.Span(r);
    l.Increment();
    SpanStep(remaining, r.isEnd, r.rider.currentHash as nat, span);
    assert l.Span(r) == span - 1;
    assert l.ElementsUntil(r) == elements[1..][..span - 1];
  }

  /** Range arithmetic for one step of Advance. */
  lemma SpanStep(remaining: seq<nat>, rIsEnd: bool, target: nat, span: nat)
    requires remaining != []
    requires span == if rIsEnd then |remaining| else if target in remaining then IndexOf(remaining, target) else 0
    requires !rIsEnd ==> target in remaining && remaining[0] != target
    ensures !rIsEnd ==> target in remaining[1..] && IndexOf(remaining[1..], target) == span - 1
    ensures rIsEnd ==> |remaining[1..]| == span - 1
  {
  }

  /** A copy of l reaches whatever l reaches, over the same range of entries. */
  lemma CopyReaches<K, V>(l: IteratorBase<K, V>, c: IteratorBase<K, V>, r: IteratorBase<K, V>)
    requires l.Valid() && c.Valid() && l.Reaches(r)
    requires c.isEnd == l.isEnd && c.data == l.data && c.rider.bytes == l.rider.bytes
    requires c.rider.metadata == l.rider.metadata && c.rider.hashMask == l.rider.hashMask
    requires c.rider.currentHash == l.rider.currentHash
    ensures c.Reaches(r) && c.Span(r) == l.Span(r) && c.ElementsUntil(r) == l.ElementsUntil(r)
  {
  }

  /** [l, r) is a range of one table's iteration. */
  ghost predicate ValidRange<K, V>(l: IteratorBase<K, V>, r: IteratorBase<K, V>)
    reads l, l.rider, l.rider.metadata, r, r.rider, r.rider.metadata
  {
    l.Valid() && l.Reaches(r)
  }

  /** Passing l by value: the callee works on a fresh copy over the same range. */
  method PassByValue<K, V>(l: IteratorBase<K, V>, r: IteratorBase<K, V>) returns (c: IteratorBase<K, V>)
    requires ValidRange(l, r)
    ensures fresh(c) && fresh(c.rider) && c.Valid() && c.Reaches(r)
    ensures c.rider.metadata == l.rider.metadata && c.data == l.data
    ensures c.ElementsUntil(r) == l.ElementsUntil(r)
  {
    c := new IteratorBase.Copy(l);
    CopyReaches(l, c, r);
  }

  /** Any two end iterators are equal. */
  lemma EndsEqual<K, V>(a: IteratorBase<K, V>, b: IteratorBase<K, V>)
    requires a.isEnd && b.isEnd
    ensures a.Equal(b) && b.Equal(a)
  {
  }

  /** Equal iterators walk the same entries. */
  lemma EqualIteratorsAgree<K, V>(a: IteratorBase<K, V>, b: IteratorBase<K, V>)
    requires a.Valid() && b.Valid() && a.Equal(b)
    ensures a.Remaining() == b.Remaining() && a.Elements() == b.Elements()
  {
  }

  /** An iterator equal to r reaches it, with nothing in between. */
  lemma EqualReaches<K, V>(a: IteratorBase<K, V>, r: IteratorBase<K, V>)
    requires a.Valid() && r.Valid() && a.Equal(r)
    ensures a.Reaches(r) && a.Span(r) == 0
  {
  }
}
