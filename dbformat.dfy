/**
 * Internal keys of range tombstones.  A user key is modelled as an integer
 * under its natural order (the user comparator is a total order); an internal
 * key adds the sequence number.  The value type is always
 * kTypeRangeDeletion here, so it takes no part in comparisons.
 */
module DbFormat {

  type Key = int

  /** 2^56 - 1: sequence numbers occupy the upper 56 bits of a packed trailer. */
  const kMaxSequenceNumber: nat := 0x00FF_FFFF_FFFF_FFFF

  type SeqNum = s: nat | s <= kMaxSequenceNumber

  datatype InternalKey = InternalKey(userKey: Key, sequence: SeqNum)

  /**
   * The InternalKeyComparator order: user key ascending, then sequence number
   * descending (newer entries first).
   */
  predicate InternalKeyLess(a: InternalKey, b: InternalKey)
  {
    a.userKey < b.userKey || (a.userKey == b.userKey && a.sequence > b.sequence)
  }
}
