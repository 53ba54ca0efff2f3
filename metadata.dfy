/** Option type used by the model for results that may be absent. */
module Wrappers {
  datatype Option<T> = None | Some(value: T)
}

/**
 * The per-slot metadata byte of the table (class Metadata of hash_map.h):
 * the two sentinels, the 7-bit fingerprint, and the categories a probe
 * rider can be asked to stop at.
 */
module Metadata {
  import opened Wrappers

  /** uint8_t, the type of a metadata byte. */
  newtype u8 = x: int | 0 <= x < 0x100

  /** uint64_t, the type of a full hash value and of slot indices. */
  newtype u64 = x: int | 0 <= x < 0x1_0000_0000_0000_0000

  const TWO64: int := 0x1_0000_0000_0000_0000

  /** Byte of a slot that has held nothing since the table was last rebuilt. */
  function GetEmpty(): (b: u8)
    ensures b as int == 0 && b != GetDeleted()
  {
    0
  }

  /** Tombstone byte: the value -1 converted to uint8_t. */
  function GetDeleted(): (b: u8)
    ensures b as int == (-1) % 0x100
  {
    0xFF
  }

  /**
   * Fingerprint of a full hash: `(hash & 0x7F) + 1`. On an unsigned value,
   * `& 0x7F` keeps the seven low bits, that is the remainder modulo 128.
   */
  function GetHash(hash: u64): (b: u8)
    ensures 1 <= b <= 128
    ensures b != GetEmpty() && b != GetDeleted()
  {
    (hash % 128 + 1) as u8
  }

  /** A byte that is neither sentinel, i.e. the slot holds a live entry. */
  predicate IsFull(b: u8) {
    b != GetEmpty() && b != GetDeleted()
  }

  /** Two hashes share a fingerprint exactly when their seven low bits agree. */
  lemma FingerprintLowBits(h1: u64, h2: u64)
    ensures GetHash(h1) == GetHash(h2) <==> h1 % 128 == h2 % 128
  {
  }

  /** `& 0x7F` and `% 128` agree on every 64-bit value. */
  lemma LowBitsAreRemainder(h: bv64)
    ensures h & 0x7F == h % 128
  {
  }

  /**
   * What Rider::next may report: the single-bit modes mode_empty,
   * mode_hash, mode_full and mode_deleted.
   */
  datatype Category = EmptySlot | HashSlot | FullSlot | DeletedSlot

  /** The rider's compile-time mode: a combination of categories. */
  type Mode = set<Category>

  /** mode_empty | mode_hash, used by find_generic. */
  const FindMode: Mode := {EmptySlot, HashSlot}

  /** mode_empty | mode_hash | mode_deleted, used by find_allow_deleted_generic. */
  const InsertMode: Mode := {EmptySlot, HashSlot, DeletedSlot}

  /** mode_full, used by the iterator. */
  const IterMode: Mode := {FullSlot}

  /** Byte b is of category c, for a rider whose fingerprint is initialHash. */
  predicate Matches(c: Category, initialHash: u8, b: u8) {
    match c
    case EmptySlot => b == GetEmpty()
    case DeletedSlot => b == GetDeleted()
    case FullSlot => IsFull(b)
    case HashSlot => IsFull(b) && b == initialHash
  }

  /** A rider in this mode stops at a slot holding byte b. */
  predicate Wanted(mode: Mode, initialHash: u8, b: u8) {
    || (EmptySlot in mode && b == GetEmpty())
    || (DeletedSlot in mode && b == GetDeleted())
    || (FullSlot in mode && IsFull(b))
    || (HashSlot in mode && IsFull(b) && b == initialHash)
  }

  /**
   * The outcome of the switch in Rider::next for byte b: the category it
   * reports, or None when it steps on. A full byte is reported as FullSlot
   * before the fingerprint is compared.
   */
  function Stop(mode: Mode, initialHash: u8, b: u8): (r: Option<Category>)
    ensures r.Some? <==> Wanted(mode, initialHash, b)
    ensures r.Some? ==> r.value in mode && Matches(r.value, initialHash, b)
  {
    if b == GetEmpty() then (if EmptySlot in mode then Some(EmptySlot) else None)
    else if b == GetDeleted() then (if DeletedSlot in mode then Some(DeletedSlot) else None)
    else if FullSlot in mode then Some(FullSlot)
    else if HashSlot in mode && b == initialHash then Some(HashSlot)
    else None
  }
}
