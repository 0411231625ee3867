/**
 * The cuckoo table reader.  A cuckoo table file is a hash table of
 * fixed-size buckets, each holding a key and a value; an empty bucket holds
 * the table's designated "unused" key.  A user key lives in one of
 * `cuckooBlockSize` consecutive buckets starting at one of its
 * `numHashFunc` hash positions.  The reader checks the table's properties
 * when it opens, looks keys up by probing, and iterates over the non-empty
 * buckets in user-key order.
 *
 * The file contents are modelled as the sequence of its buckets (the bytes
 * at `BucketOffset(bucketId, bucketLength)`, a 64-bit product), and the user
 * comparator as byte-wise order.
 * The hash function, reading the properties block, reading the file,
 * `ParseInternalKey` and `GetContext::SaveValue` are foreign: their results
 * are parameters.
 */
module CuckooTables {
  import opened ByteStrings
  import opened Wrappers
  import opened Search
  import opened Sorting
  import DbFormat

  const TWO_TO_32: nat := 0x1_0000_0000
  const TWO_TO_64: nat := 0x1_0000_0000_0000_0000

  type UInt32 = x: nat | x < TWO_TO_32
  type UInt64 = x: nat | x < TWO_TO_64

  /** The largest uint32: the iterator's "no position". */
  const kInvalidIndex: UInt32 := 0xFFFF_FFFF

  /** The value type of a plain put. */
  const kTypeValue: nat := 0x1

  datatype Status = OK | InvalidArgument(msg: string) | Corruption(msg: string) | IOError(msg: string)

  /** The user-collected table properties the reader needs, in the order it checks them. */
  datatype CuckooProperty =
    | NumHashFunc
    | EmptyKey
    | UserKeyLength
    | ValueLength
    | HashTableSize
    | IsLastLevel
    | IdentityAsFirstHash
    | UseModuleHash
    | CuckooBlockSize

  /** The position of a property in the check order. */
  function Rank(p: CuckooProperty): nat
  {
    match p
    case NumHashFunc => 0
    case EmptyKey => 1
    case UserKeyLength => 2
    case ValueLength => 3
    case HashTableSize => 4
    case IsLastLevel => 5
    case IdentityAsFirstHash => 6
    case UseModuleHash => 7
    case CuckooBlockSize => 8
  }

  /** The Corruption message reported when a property is missing. */
  function MissingMessage(p: CuckooProperty): string
  {
    match p
    case NumHashFunc => "Number of hash functions not found"
    case EmptyKey => "Empty bucket value not found"
    case UserKeyLength => "User key length not found"
    case ValueLength => "Value length not found"
    case HashTableSize => "Hash table size not found"
    case IsLastLevel => "Is last level not found"
    case IdentityAsFirstHash => "identity as first hash not found"
    case UseModuleHash => "hash type is not found"
    case CuckooBlockSize => "Cuckoo block size not found"
  }

  /** Bytes a property's value is read as: uint32, uint64 or bool; the empty key is a string. */
  function Width(p: CuckooProperty): nat
  {
    match p
    case NumHashFunc => 4
    case EmptyKey => 0
    case UserKeyLength => 4
    case ValueLength => 4
    case HashTableSize => 8
    case IsLastLevel => 1
    case IdentityAsFirstHash => 1
    case UseModuleHash => 1
    case CuckooBlockSize => 4
  }

  datatype TableProperties = TableProperties(fixedKeyLen: UInt64, userCollected: map<CuckooProperty, Bytes>)

  /** Every stored property value is at least as wide as the type it is read as. */
  predicate WideEnough(props: TableProperties)
  {
    forall p :: p in props.userCollected ==> |props.userCollected[p]| >= Width(p)
  }

  /** The first property, in check order, that the table lacks. */
  function MissingProperty(up: map<CuckooProperty, Bytes>): (m: Option<CuckooProperty>)
    ensures m.Some? ==> m.value !in up
    ensures (forall q :: q in up) ==> m.None?
  {
    if NumHashFunc !in up then Some(NumHashFunc)
    else if EmptyKey !in up then Some(EmptyKey)
    else if UserKeyLength !in up then Some(UserKeyLength)
    else if ValueLength !in up then Some(ValueLength)
    else if HashTableSize !in up then Some(HashTableSize)
    else if IsLastLevel !in up then Some(IsLastLevel)
    else if IdentityAsFirstHash !in up then Some(IdentityAsFirstHash)
    else if UseModuleHash !in up then Some(UseModuleHash)
    else if CuckooBlockSize !in up then Some(CuckooBlockSize)
    else None
  }

  /** The missing property reported is the absent one that every earlier property precedes. */
  lemma MissingPropertyIsFirst(up: map<CuckooProperty, Bytes>, p: CuckooProperty)
    ensures MissingProperty(up) == Some(p) <==> p !in up && forall q :: Rank(q) < Rank(p) ==> q in up
    ensures MissingProperty(up) == None <==> forall q :: q in up
  {
    forall q | q !in up ensures MissingProperty(up).Some? && Rank(MissingProperty(up).value) <= Rank(q) {
      match q
      case NumHashFunc =>
      case EmptyKey =>
      case UserKeyLength =>
      case ValueLength =>
      case HashTableSize =>
      case IsLastLevel =>
      case IdentityAsFirstHash =>
      case UseModuleHash =>
      case CuckooBlockSize =>
    }
  }

  /**
   * The status the reader ends up with: InvalidArgument without mmap reads,
   * the properties block's own error, Corruption for the first missing
   * property, otherwise the outcome of reading the file.
   */
  function OpenStatus(allowMmapReads: bool, readStatus: Status, props: TableProperties, fileReadStatus: Status)
    : (s: Status)
    ensures s == OK ==> allowMmapReads && readStatus == OK && fileReadStatus == OK
    ensures s == OK ==> forall q :: q in props.userCollected
    ensures allowMmapReads && readStatus == OK && (forall q :: q in props.userCollected) ==> s == fileReadStatus
  {
    MissingPropertyIsFirst(props.userCollected, NumHashFunc);
    if !allowMmapReads then InvalidArgument("File is not mmaped")
    else if readStatus != OK then readStatus
    else match MissingProperty(props.userCollected)
      case Some(p) => Corruption(MissingMessage(p))
      case None => fileReadStatus
  }

  function Pow256(n: nat): (p: nat)
    ensures p >= 1
  {
    if n == 0 then 1 else 256 * Pow256(n - 1)
  }

  lemma Pow256Widths()
    ensures Pow256(4) == TWO_TO_32 && Pow256(8) == TWO_TO_64
  {
    assert Pow256(2) == 0x1_0000;
    assert Pow256(4) == 0x1_0000 * Pow256(2) by {
      assert Pow256(4) == 256 * Pow256(3) && Pow256(3) == 256 * Pow256(2);
    }
    assert Pow256(6) == 0x1_0000 * Pow256(4) by {
      assert Pow256(6) == 256 * Pow256(5) && Pow256(5) == 256 * Pow256(4);
    }
    assert Pow256(8) == 0x1_0000 * Pow256(6) by {
      assert Pow256(8) == 256 * Pow256(7) && Pow256(7) == 256 * Pow256(6);
    }
  }

  /** A little-endian unsigned integer (the host order the properties are stored in). */
  function DecodeLE(b: Bytes): (x: nat)
    ensures x < Pow256(|b|)
  {
    if b == [] then 0 else b[0] + 256 * DecodeLE(b[1..])
  }

  function EncodeLE(x: nat, n: nat): (b: Bytes)
    ensures |b| == n
  {
    if n == 0 then [] else [x % 256] + EncodeLE(x / 256, n - 1)
  }

  /** Decoding an encoded integer that fits gives it back. */
  lemma {:induction false} DecodeEncode(x: nat, n: nat)
    requires x < Pow256(n)
    ensures DecodeLE(EncodeLE(x, n)) == x
  {
    if n > 0 {
      var b := EncodeLE(x, n);
      assert b[1..] == EncodeLE(x / 256, n - 1);
      DecodeEncode(x / 256, n - 1);
    }
  }

  function DecodeFixed32(b: Bytes): (x: UInt32)
    requires |b| >= 4
  {
    Pow256Widths();
    DecodeLE(b[..4])
  }

  function DecodeFixed64(b: Bytes): (x: UInt64)
    requires |b| >= 8
  {
    Pow256Widths();
    DecodeLE(b[..8])
  }

  /** A stored bool: any non-zero byte reads as true. */
  function DecodeBool(b: Bytes): bool
    requires |b| >= 1
  {
    b[0] != 0
  }

  /** The 8-byte trailer of an internal key: sequence number shifted left by 8, or'ed with the type. */
  function PackSequenceAndType(seqNum: nat, t: nat): nat
  {
    seqNum * 256 + t
  }

  function InternalKeyFooter(seqNum: nat, t: nat): (b: Bytes)
    ensures |b| == 8
  {
    EncodeLE(PackSequenceAndType(seqNum, t), 8)
  }

  /** The reader's key and value sizes. */
  datatype Layout = Layout(numHashFunc: UInt32, unusedKey: Bytes, keyLength: UInt32, userKeyLength: UInt32,
                           valueLength: UInt32, bucketLength: UInt32)

  /** The initializer list's sizes, before any property is read. */
  const NoLayout := Layout(0, [], 0, 0, 0, 0)

  /** The reader's hashing parameters. */
  datatype Hashing = Hashing(tableSize: UInt64, isLastLevel: bool, identityAsFirstHash: bool, useModuleHash: bool,
                             cuckooBlockSize: UInt32, cuckooBlockBytesMinusOne: UInt32)

  /** The initializer list's hashing parameters. */
  const NoHashing := Hashing(0, false, false, false, 0, 0)

  /**
   * The sizes a table's properties describe: the key length is the table's
   * fixed key length truncated to 32 bits, and a bucket is a key followed by
   * a value, its length in 32-bit arithmetic.
   */
  function DecodeLayout(props: TableProperties): (l: Layout)
    requires WideEnough(props)
    requires var up := props.userCollected;
             NumHashFunc in up && EmptyKey in up && UserKeyLength in up && ValueLength in up
    ensures l.unusedKey == props.userCollected[EmptyKey]
    ensures l.keyLength == props.fixedKeyLen % TWO_TO_32
    ensures l.bucketLength == (l.keyLength + l.valueLength) % TWO_TO_32
  {
    var up := props.userCollected;
    var keyLength := props.fixedKeyLen % TWO_TO_32;
    var valueLength := DecodeFixed32(up[ValueLength]);
    Layout(DecodeFixed32(up[NumHashFunc]), up[EmptyKey], keyLength, DecodeFixed32(up[UserKeyLength]),
           valueLength, (keyLength + valueLength) % TWO_TO_32)
  }

  /**
   * The hashing parameters the properties describe; a cuckoo block spans
   * `cuckooBlockSize * bucketLength` bytes, less one, in 32-bit arithmetic.
   */
  function DecodeHashing(props: TableProperties, bucketLength: UInt32): (h: Hashing)
    requires WideEnough(props)
    requires var up := props.userCollected;
             HashTableSize in up && IsLastLevel in up && IdentityAsFirstHash in up && UseModuleHash in up
             && CuckooBlockSize in up
    ensures h.cuckooBlockBytesMinusOne == (h.cuckooBlockSize * bucketLength - 1) % TWO_TO_32
  {
    var up := props.userCollected;
    var blockSize := DecodeFixed32(up[CuckooBlockSize]);
    Hashing(DecodeFixed64(up[HashTableSize]), DecodeBool(up[IsLastLevel]), DecodeBool(up[IdentityAsFirstHash]),
            DecodeBool(up[UseModuleHash]), blockSize, (blockSize * bucketLength - 1) % TWO_TO_32)
  }

  datatype Bucket = Bucket(key: Bytes, value: Bytes)

  /**
   * The byte offset of bucket `id`, as `Get` computes it: a product in
   * uint64 arithmetic, which never wraps for 32-bit operands.  `fileData[id]`
   * stands for the bucket at this offset.
   */
  function BucketOffset(id: UInt32, bucketLength: UInt32): (off: UInt64)
    ensures off as int + bucketLength <= TWO_TO_64
  {
    assert (id + 1) * bucketLength <= TWO_TO_32 * bucketLength <= TWO_TO_32 * TWO_TO_32 by {
      MulMono(id + 1, TWO_TO_32, bucketLength);
    }
    id * bucketLength
  }

  lemma MulMono(a: nat, b: nat, c: nat)
    requires a <= b
    ensures a * c <= b * c
  {
  }

  /** Distinct buckets occupy disjoint byte ranges, in bucket order. */
  lemma {:induction false} BucketOffsetsDisjoint(id1: UInt32, id2: UInt32, bucketLength: UInt32)
    requires id1 < id2
    ensures BucketOffset(id1, bucketLength) + bucketLength <= BucketOffset(id2, bucketLength)
  {
    MulMono(id1 + 1, id2, bucketLength);
  }

  /**
   * The byte offset of bucket `id` as the iterator's bucket comparator and
   * `PrepareKVAtCurrIdx` compute it: both operands are uint32, so the
   * product wraps modulo 2^32.  It is the true offset exactly when the
   * product fits in 32 bits.
   */
  function IteratorBucketOffset(id: UInt32, bucketLength: UInt32): (off: UInt32)
    ensures off == BucketOffset(id, bucketLength) <==> BucketOffset(id, bucketLength) < TWO_TO_32
  {
    (id * bucketLength) % TWO_TO_32
  }

  /**
   * In a table of 200,000,000 buckets of 24 bytes, bucket 178,956,971 is
   * read by the iterator at byte 8, in the middle of bucket 0.
   */
  lemma IteratorOffsetWraps()
    ensures BucketOffset(178_956_971, 24) == 4_294_967_304
    ensures IteratorBucketOffset(178_956_971, 24) == 8
    ensures BucketOffset(0, 24) < IteratorBucketOffset(178_956_971, 24) < BucketOffset(1, 24)
  {
  }

  /** `CuckooHash(user_key, hash_cnt, use_module_hash, table_size, identity_as_first_hash, ...)`. */
  type CuckooHashFn = (Bytes, nat, bool, UInt64, bool) -> nat

  /** A probe position: the hash function's number and the offset inside its cuckoo block. */
  datatype Probe = Probe(hashCnt: nat, blockIdx: nat)

  /** Probe order: all blocks of one hash function before the next function. */
  predicate ProbeBefore(a: Probe, b: Probe)
  {
    a.hashCnt < b.hashCnt || (a.hashCnt == b.hashCnt && a.blockIdx < b.blockIdx)
  }

  /** What the reader hands to the lookup context. */
  datatype Saved =
    | SavedValue(value: Bytes, seqNum: nat)
    | SavedParsed(internalKey: Bytes, value: Bytes)

  datatype LookupResult = NotFound | Found(bucketId: nat)

  /** The user-key part of a bucket, empty for a bucket that does not exist. */
  function UserKeyOf(data: seq<Bucket>, userKeyLength: nat, id: nat): Bytes
  {
    if id < |data| && userKeyLength <= |data[id].key| then data[id].key[..userKeyLength] else []
  }

  /** The iterator's bucket order: by user key. */
  function ByUserKey(data: seq<Bucket>, userKeyLength: nat): (nat, nat) -> bool
  {
    (a: nat, b: nat) => LessEq(UserKeyOf(data, userKeyLength, a), UserKeyOf(data, userKeyLength, b))
  }

  lemma ByUserKeyTotalPreorder(data: seq<Bucket>, userKeyLength: nat)
    ensures TotalPreorder(ByUserKey(data, userKeyLength))
  {
    LessEqTotalPreorder();
  }

  /** `lower_bound`'s test for a target user key: the bucket's user key is not below it. */
  function NotBelowKey(data: seq<Bucket>, userKeyLength: nat, target: Bytes): nat -> bool
  {
    (id: nat) => !Less(UserKeyOf(data, userKeyLength, id), target)
  }

  lemma SortedIsPartitioned(s: seq<nat>, data: seq<Bucket>, userKeyLength: nat, target: Bytes)
    requires SortedBy(s, ByUserKey(data, userKeyLength))
    ensures Partitioned(s, NotBelowKey(data, userKeyLength, target))
  {
    forall j, k | 0 <= j <= k < |s| && NotBelowKey(data, userKeyLength, target)(s[j])
      ensures NotBelowKey(data, userKeyLength, target)(s[k])
    {
      var a, b := UserKeyOf(data, userKeyLength, s[j]), UserKeyOf(data, userKeyLength, s[k]);
      if j < k {
        assert LessEq(a, b);
        if Less(b, target) {
          CompareTransitive(a, b, target);
          CompareZero(a, target);
          CompareZero(b, target);
          CompareAntisymmetric(a, b);
          CompareZero(a, b);
        }
      }
    }
  }

  lemma {:induction false} IncreasingCountsOnce(s: seq<nat>, x: nat)
    requires forall i, j :: 0 <= i < j < |s| ==> s[i] < s[j]
    requires x in s
    ensures multiset(s)[x] == 1
  {
    var last := s[|s| - 1];
    var init := s[..|s| - 1];
    assert s == init + [last];
    if x == last {
      assert x !in init by {
        forall k | 0 <= k < |init| ensures init[k] != x {
          assert init[k] == s[k];
        }
      }
    } else {
      assert x in init;
      IncreasingCountsOnce(init, x);
    }
  }

  class CuckooTableReader {
    var status: Status
    var isLastLevel: bool
    var identityAsFirstHash: bool
    var useModuleHash: bool
    var numHashFunc: UInt32
    var keyLength: UInt32
    var userKeyLength: UInt32
    var valueLength: UInt32
    var bucketLength: UInt32
    var cuckooBlockSize: UInt32
    var cuckooBlockBytesMinusOne: UInt32
    var tableSize: UInt64
    var unusedKey: Bytes
    var fileData: seq<Bucket>
    const cuckooHash: CuckooHashFn

    /** The fields still hold the initializer list's values: nothing was loaded. */
    ghost predicate Unloaded()
      reads this
    {
      CurrentLayout() == NoLayout && CurrentHashing() == NoHashing && fileData == []
    }

    /**
     * Opens a table: without mmap reads, or when the properties block cannot
     * be read, or when a property is missing, it stops with that status
     * (the first missing property in check order is the one reported); a
     * table with all properties has them all decoded and its file contents
     * read.
     */
    constructor (allowMmapReads: bool, readStatus: Status, props: TableProperties,
                 fileReadStatus: Status, fileBuckets: seq<Bucket>, cuckooHash: CuckooHashFn)
      requires readStatus == OK ==> WideEnough(props)
      ensures this.cuckooHash == cuckooHash
      ensures status == OpenStatus(allowMmapReads, readStatus, props, fileReadStatus)
      ensures !allowMmapReads || readStatus != OK || MissingProperty(props.userCollected).Some? ==> Unloaded()
      ensures allowMmapReads && readStatus == OK && MissingProperty(props.userCollected).None? ==>
                && CurrentLayout() == DecodeLayout(props)
                && CurrentHashing() == DecodeHashing(props, bucketLength)
                && fileData == fileBuckets
    {
      this.cuckooHash := cuckooHash;
      var st: Status := OK;
      var layout := NoLayout;
      var hashing := NoHashing;
      var data: seq<Bucket> := [];
      if !allowMmapReads {
        st := InvalidArgument("File is not mmaped");
      } else if readStatus != OK {
        st := readStatus;
      } else {
        var missing := MissingProperty(props.userCollected);
        if missing.Some? {
          st := Corruption(MissingMessage(missing.value));
        } else {
          layout := DecodeLayout(props);
          hashing := DecodeHashing(props, layout.bucketLength);
          st := fileReadStatus;
          data := fileBuckets;
        }
      }
      status := st;
      numHashFunc := layout.numHashFunc;
      unusedKey := layout.unusedKey;
      keyLength := layout.keyLength;
      userKeyLength := layout.userKeyLength;
      valueLength := layout.valueLength;
      bucketLength := layout.bucketLength;
      tableSize := hashing.tableSize;
      isLastLevel := hashing.isLastLevel;
      identityAsFirstHash := hashing.identityAsFirstHash;
      useModuleHash := hashing.useModuleHash;
      cuckooBlockSize := hashing.cuckooBlockSize;
      cuckooBlockBytesMinusOne := hashing.cuckooBlockBytesMinusOne;
      fileData := data;
    }

    /** The key and value sizes as the reader holds them. */
    function CurrentLayout(): Layout
      reads this`numHashFunc, this`unusedKey, this`keyLength, this`userKeyLength, this`valueLength, this`bucketLength
    {
      Layout(numHashFunc, unusedKey, keyLength, userKeyLength, valueLength, bucketLength)
    }

    /** The hashing parameters as the reader holds them. */
    function CurrentHashing(): Hashing
      reads this`tableSize, this`isLastLevel, this`identityAsFirstHash, this`useModuleHash, this`cuckooBlockSize,
            this`cuckooBlockBytesMinusOne
    {
      Hashing(tableSize, isLastLevel, identityAsFirstHash, useModuleHash, cuckooBlockSize, cuckooBlockBytesMinusOne)
    }

    /**
     * The layout a well-formed cuckoo file has: every bucket holds a key of
     * `keyLength` bytes, of which the user key is a prefix, and a value of
     * `valueLength` bytes; the empty key is a full key.
     */
    ghost predicate TableValid()
      reads this`userKeyLength, this`keyLength, this`unusedKey, this`fileData, this`valueLength
    {
      userKeyLength <= keyLength && |unusedKey| == keyLength
      && forall id :: 0 <= id < |fileData| ==> |fileData[id].key| == keyLength && |fileData[id].value| == valueLength
    }

    /** The first bucket of hash function `hashCnt`'s block for a user key. */
    function Hash(userKey: Bytes, hashCnt: nat): nat
      reads this`useModuleHash, this`tableSize, this`identityAsFirstHash
    {
      cuckooHash(userKey, hashCnt, useModuleHash, tableSize, identityAsFirstHash)
    }

    /** The bucket at a probe position: the block's first bucket plus the offset inside it. */
    function BucketOf(userKey: Bytes, p: Probe): nat
      reads this`useModuleHash, this`tableSize, this`identityAsFirstHash
    {
      Hash(userKey, p.hashCnt) + p.blockIdx
    }

    /** Every bucket a lookup of `userKey` may probe lies inside the file. */
    ghost predicate ProbesInRange(userKey: Bytes)
      reads this`useModuleHash, this`tableSize, this`identityAsFirstHash, this`numHashFunc, this`cuckooBlockSize,
            this`fileData
    {
      forall p: Probe :: p.hashCnt < numHashFunc && p.blockIdx < cuckooBlockSize ==> BucketOf(userKey, p) < |fileData|
    }

    /** A bucket key starts with the empty key, compared over the user key's length. */
    predicate IsUnusedKey(userKey: Bytes, bucketKey: Bytes)
      reads this`unusedKey
    {
      |userKey| <= |bucketKey| && |userKey| <= |unusedKey| && unusedKey[..|userKey|] == bucketKey[..|userKey|]
    }

    /** A bucket key starts with the user key. */
    predicate HoldsUserKey(userKey: Bytes, bucketKey: Bytes)
    {
      |userKey| <= |bucketKey| && bucketKey[..|userKey|] == userKey
    }

    /** The bucket at a probe position holds the empty key. */
    predicate EmptyAt(userKey: Bytes, p: Probe)
      reads this`useModuleHash, this`tableSize, this`identityAsFirstHash, this`fileData, this`unusedKey
    {
      var id := BucketOf(userKey, p);
      id < |fileData| && IsUnusedKey(userKey, fileData[id].key)
    }

    /** The bucket at a probe position holds `userKey`. */
    predicate MatchAt(userKey: Bytes, p: Probe)
      reads this`useModuleHash, this`tableSize, this`identityAsFirstHash, this`fileData
    {
      var id := BucketOf(userKey, p);
      id < |fileData| && HoldsUserKey(userKey, fileData[id].key)
    }

    /** A lookup stops at an empty bucket or at its key. */
    predicate StopsAt(userKey: Bytes, hashCnt: nat, blockIdx: nat)
      reads this`useModuleHash, this`tableSize, this`identityAsFirstHash, this`fileData, this`unusedKey
    {
      EmptyAt(userKey, Probe(hashCnt, blockIdx)) || MatchAt(userKey, Probe(hashCnt, blockIdx))
    }

    /**
     * The first probe position, from (`h`, `b`) on in probe order, where a
     * lookup stops; None when it stops nowhere.
     */
    function ProbeFrom(userKey: Bytes, h: nat, b: nat): (r: Option<Probe>)
      reads this`useModuleHash, this`tableSize, this`identityAsFirstHash, this`fileData, this`unusedKey,
            this`numHashFunc, this`cuckooBlockSize
      decreases numHashFunc - h, cuckooBlockSize - b
    {
      if h >= numHashFunc then None
      else if b >= cuckooBlockSize then ProbeFrom(userKey, h + 1, 0)
      else if StopsAt(userKey, h, b) then Some(Probe(h, b))
      else ProbeFrom(userKey, h, b + 1)
    }

    /**
     * The probe found is the first stop: it does not come before the start,
     * and no position from the start up to it (or anywhere, when there is
     * none) stops the lookup.
     */
    lemma {:induction false} ProbeFromIsFirst(userKey: Bytes, h: nat, b: nat)
      ensures var r := ProbeFrom(userKey, h, b);
              r.Some? ==> && r.value.hashCnt < numHashFunc && r.value.blockIdx < cuckooBlockSize
                          && StopsAt(userKey, r.value.hashCnt, r.value.blockIdx)
      ensures var r := ProbeFrom(userKey, h, b);
              r.Some? ==> !ProbeBefore(r.value, Probe(h, b))
      ensures var r := ProbeFrom(userKey, h, b);
              forall hc, bi :: (h <= hc < numHashFunc && 0 <= bi < cuckooBlockSize
                                && !ProbeBefore(Probe(hc, bi), Probe(h, b))
                                && (r.None? || ProbeBefore(Probe(hc, bi), r.value))) ==> !StopsAt(userKey, hc, bi)
      decreases numHashFunc - h, cuckooBlockSize - b
    {
      if h >= numHashFunc {
      } else if b >= cuckooBlockSize {
        ProbeFromIsFirst(userKey, h + 1, 0);
      } else if !StopsAt(userKey, h, b) {
        ProbeFromIsFirst(userKey, h, b + 1);
      }
    }

    /** Every bucket a lookup probes is in the file and holds a full key. */
    lemma ProbeStep(userKey: Bytes, h: nat, b: nat)
      requires TableValid() && |userKey| <= keyLength && ProbesInRange(userKey)
      requires h < numHashFunc && b < cuckooBlockSize
      ensures Hash(userKey, h) + b < |fileData|
      ensures |fileData[Hash(userKey, h) + b].key| == keyLength
    {
      assert BucketOf(userKey, Probe(h, b)) < |fileData|;
    }

    /** No probe position in range before `p` stops a lookup of `userKey`. */
    ghost predicate NoStopBefore(userKey: Bytes, p: Probe)
      reads this`useModuleHash, this`tableSize, this`identityAsFirstHash, this`fileData, this`unusedKey,
            this`numHashFunc, this`cuckooBlockSize
    {
      forall q: Probe :: (ProbeBefore(q, p) && q.hashCnt < numHashFunc && q.blockIdx < cuckooBlockSize) ==>
        !StopsAt(userKey, q.hashCnt, q.blockIdx)
    }

    /** Nothing comes before the first probe. */
    lemma NoStopAtStart(userKey: Bytes)
      ensures NoStopBefore(userKey, Probe(0, 0))
    {
    }

    /** Passing a probe where the lookup does not stop. */
    lemma NoStopNextBlock(userKey: Bytes, h: nat, b: nat)
      requires NoStopBefore(userKey, Probe(h, b)) && !StopsAt(userKey, h, b)
      ensures NoStopBefore(userKey, Probe(h, b + 1))
    {
    }

    /** Passing the last block of one hash function. */
    lemma NoStopNextHash(userKey: Bytes, h: nat)
      requires NoStopBefore(userKey, Probe(h, cuckooBlockSize))
      ensures NoStopBefore(userKey, Probe(h + 1, 0))
    {
    }

    /** Where a lookup of `userKey` ends: the bucket holding it, or nowhere. */
    function Lookup(userKey: Bytes): (r: LookupResult)
      reads this`useModuleHash, this`tableSize, this`identityAsFirstHash, this`fileData, this`unusedKey,
            this`numHashFunc, this`cuckooBlockSize
      ensures r.Found? ==> r.bucketId < |fileData|
    {
      ProbeFromIsFirst(userKey, 0, 0);
      match ProbeFrom(userKey, 0, 0)
      case None => NotFound
      case Some(p) =>
        if EmptyAt(userKey, p) then NotFound else Found(BucketOf(userKey, p))
    }

    /** A lookup ends at the first position where it stops. */
    lemma LookupAtFirstStop(userKey: Bytes, p: Probe)
      requires p.hashCnt < numHashFunc && p.blockIdx < cuckooBlockSize
      requires StopsAt(userKey, p.hashCnt, p.blockIdx) && NoStopBefore(userKey, p)
      ensures Lookup(userKey) == if EmptyAt(userKey, p) then NotFound else Found(BucketOf(userKey, p))
    {
      ProbeFromIsFirst(userKey, 0, 0);
      var r := ProbeFrom(userKey, 0, 0);
      assert r.Some? && !ProbeBefore(r.value, p) && !ProbeBefore(p, r.value);
    }

    /** Reaching an empty bucket before any bucket holding the key: not found. */
    lemma LookupEndsEmpty(userKey: Bytes, h: nat, b: nat, bucketKey: Bytes)
      requires h < numHashFunc && b < cuckooBlockSize && NoStopBefore(userKey, Probe(h, b))
      requires Hash(userKey, h) + b < |fileData| && bucketKey == fileData[Hash(userKey, h) + b].key
      requires IsUnusedKey(userKey, bucketKey)
      ensures Lookup(userKey) == NotFound
    {
      LookupAtFirstStop(userKey, Probe(h, b));
    }

    /** Reaching a bucket holding the key, with no empty bucket before it: found there. */
    lemma LookupEndsFound(userKey: Bytes, h: nat, b: nat, bucketKey: Bytes)
      requires h < numHashFunc && b < cuckooBlockSize && NoStopBefore(userKey, Probe(h, b))
      requires Hash(userKey, h) + b < |fileData| && bucketKey == fileData[Hash(userKey, h) + b].key
      requires !IsUnusedKey(userKey, bucketKey) && HoldsUserKey(userKey, bucketKey)
      ensures Lookup(userKey) == Found(Hash(userKey, h) + b)
    {
      LookupAtFirstStop(userKey, Probe(h, b));
    }

    /** Passing a bucket that is neither empty nor the key's. */
    lemma LookupPasses(userKey: Bytes, h: nat, b: nat, bucketKey: Bytes)
      requires NoStopBefore(userKey, Probe(h, b))
      requires Hash(userKey, h) + b < |fileData| && bucketKey == fileData[Hash(userKey, h) + b].key
      requires !IsUnusedKey(userKey, bucketKey) && !HoldsUserKey(userKey, bucketKey)
      ensures NoStopBefore(userKey, Probe(h, b + 1))
    {
      NoStopNextBlock(userKey, h, b);
    }

    /** A lookup that stops nowhere finds nothing. */
    lemma LookupWithoutStop(userKey: Bytes)
      requires NoStopBefore(userKey, Probe(numHashFunc, 0))
      ensures Lookup(userKey) == NotFound
    {
      ProbeFromIsFirst(userKey, 0, 0);
    }

    /**
     * A found bucket holds the key, and no bucket probed before it is empty;
     * when the key is not found, every probed bucket that holds it comes at
     * or after an empty probed bucket in probe order.
     */
    lemma LookupMeaning(userKey: Bytes)
      ensures Lookup(userKey).Found? ==>
                var id := Lookup(userKey).bucketId;
                id < |fileData| && |userKey| <= |fileData[id].key| && fileData[id].key[..|userKey|] == userKey
      ensures Lookup(userKey).Found? ==>
                forall p: Probe :: (ProbeBefore(p, ProbeFrom(userKey, 0, 0).value) && p.hashCnt < numHashFunc
                                    && p.blockIdx < cuckooBlockSize) ==> !EmptyAt(userKey, p)
      ensures Lookup(userKey).NotFound? ==>
                forall p: Probe :: (p.hashCnt < numHashFunc && p.blockIdx < cuckooBlockSize && MatchAt(userKey, p)) ==>
                  exists e: Probe :: e.hashCnt < numHashFunc && e.blockIdx < cuckooBlockSize
                                     && !ProbeBefore(p, e) && EmptyAt(userKey, e)
    {
      var r := ProbeFrom(userKey, 0, 0);
      ProbeFromIsFirst(userKey, 0, 0);
      if Lookup(userKey).Found? {
        forall p: Probe | ProbeBefore(p, r.value) && p.hashCnt < numHashFunc && p.blockIdx < cuckooBlockSize
          ensures !EmptyAt(userKey, p)
        {
          assert !StopsAt(userKey, p.hashCnt, p.blockIdx);
        }
      } else {
        forall p: Probe | p.hashCnt < numHashFunc && p.blockIdx < cuckooBlockSize && MatchAt(userKey, p)
          ensures exists e: Probe :: e.hashCnt < numHashFunc && e.blockIdx < cuckooBlockSize
                                     && !ProbeBefore(p, e) && EmptyAt(userKey, e)
        {
          assert StopsAt(userKey, p.hashCnt, p.blockIdx);
          assert r.Some? && !ProbeBefore(p, r.value) && EmptyAt(userKey, r.value);
        }
      }
    }

    /**
     * Get: probes the blocks of each hash function in turn and stops at the
     * first empty bucket (not found) or the first bucket holding the user
     * key.  A last-level table stores no sequence numbers, so the value is
     * reported with the largest one; otherwise the stored internal key is
     * parsed and handed on with the value.  A missing key is not an error.
     */
    method Get(key: Bytes, parseInternalKey: Bytes -> Status, saveValue: (Bytes, Bytes) -> Status)
      returns (s: Status, saved: Option<Saved>)
      requires TableValid()
      requires |key| >= 8 && |key| == keyLength + (if isLastLevel then 8 else 0)
      requires ProbesInRange(key[..|key| - 8])
      ensures var userKey := key[..|key| - 8];
              Lookup(userKey).NotFound? ==> s == OK && saved == None
      ensures var userKey := key[..|key| - 8];
              Lookup(userKey).Found? && isLastLevel ==>
                s == OK && saved == Some(SavedValue(fileData[Lookup(userKey).bucketId].value, DbFormat.kMaxSequenceNumber))
      ensures var userKey := key[..|key| - 8];
              Lookup(userKey).Found? && !isLastLevel ==>
                var bucket := fileData[Lookup(userKey).bucketId];
                if parseInternalKey(bucket.key) != OK then s == parseInternalKey(bucket.key) && saved == None
                else saved == Some(SavedParsed(bucket.key, bucket.value)) && s == saveValue(bucket.key, bucket.value)
    {
      var userKey := key[..|key| - 8];
      var r := FindBucket(userKey);
      if r.NotFound? {
        return OK, None;
      }
      var bucket := fileData[r.bucketId];
      if isLastLevel {
        return OK, Some(SavedValue(bucket.value, DbFormat.kMaxSequenceNumber));
      }
      s := parseInternalKey(bucket.key);
      if s != OK {
        return s, None;
      }
      saved := Some(SavedParsed(bucket.key, bucket.value));
      s := saveValue(bucket.key, bucket.value);
      if s != OK {
        return;
      }
      return OK, saved;
    }

    /**
     * The probe loop of Get: the blocks of each hash function in turn, up to
     * the first empty bucket or the first bucket holding the user key.
     */
    method FindBucket(userKey: Bytes) returns (r: LookupResult)
      requires TableValid() && |userKey| <= keyLength
      requires ProbesInRange(userKey)
      ensures r == Lookup(userKey)
    {
      var hashCnt: UInt32 := 0;
      NoStopAtStart(userKey);
      while hashCnt < numHashFunc
        invariant hashCnt <= numHashFunc
        invariant NoStopBefore(userKey, Probe(hashCnt, 0))
      {
        var stopped;
        stopped, r := ProbeBlock(userKey, hashCnt);
        if stopped {
          return;
        }
        hashCnt := hashCnt + 1;
      }
      LookupWithoutStop(userKey);
      return NotFound;
    }

    /**
     * The inner loop of Get's probe: the `cuckoo_block_size` buckets from the
     * position hash function `hashCnt` gives.  Either the lookup stops in this
     * block, with the lookup's result, or no bucket of the block stops it.
     */
    method ProbeBlock(userKey: Bytes, hashCnt: UInt32) returns (stopped: bool, r: LookupResult)
      requires TableValid() && |userKey| <= keyLength && ProbesInRange(userKey)
      requires hashCnt < numHashFunc && NoStopBefore(userKey, Probe(hashCnt, 0))
      ensures stopped ==> r == Lookup(userKey)
      ensures !stopped ==> NoStopBefore(userKey, Probe(hashCnt + 1, 0))
    {
      var offset := Hash(userKey, hashCnt);
      var blockIdx: UInt32 := 0;
      while blockIdx < cuckooBlockSize
        invariant blockIdx <= cuckooBlockSize
        invariant NoStopBefore(userKey, Probe(hashCnt, blockIdx))
      {
        ProbeStep(userKey, hashCnt, blockIdx);
        var bucket := fileData[offset + blockIdx];
        if IsUnusedKey(userKey, bucket.key) {
          LookupEndsEmpty(userKey, hashCnt, blockIdx, bucket.key);
          return true, NotFound;
        }
        if HoldsUserKey(userKey, bucket.key) {
          LookupEndsFound(userKey, hashCnt, blockIdx, bucket.key);
          return true, Found(offset + blockIdx);
        }
        LookupPasses(userKey, hashCnt, blockIdx, bucket.key);
        blockIdx := blockIdx + 1;
      }
      NoStopNextHash(userKey, hashCnt);
      return false, NotFound;
    }

    /** Buckets the iterator scans: `table_size + cuckoo_block_size - 1`, in uint64 arithmetic. */
    function NumBuckets(): (n: UInt64)
      reads this
      ensures 1 <= tableSize + cuckooBlockSize <= TWO_TO_64 ==> n == tableSize + cuckooBlockSize - 1
      ensures tableSize + cuckooBlockSize == 0 ==> n == TWO_TO_64 - 1
      ensures tableSize + cuckooBlockSize > TWO_TO_64 ==> n == tableSize + cuckooBlockSize - 1 - TWO_TO_64
    {
      (tableSize + cuckooBlockSize + TWO_TO_64 - 1) % TWO_TO_64
    }

    /** The iterator needs the bucket count to fit below the invalid index and inside the file. */
    ghost predicate Iterable()
      reads this
    {
      TableValid() && NumBuckets() < kInvalidIndex && NumBuckets() <= |fileData|
    }

    predicate NonEmpty(id: nat)
      reads this
    {
      id < |fileData| && fileData[id].key != unusedKey
    }

    /** The non-empty buckets among the first `n`, in bucket order. */
    function NonEmptyIds(n: nat): (ids: seq<nat>)
      reads this
      ensures |ids| <= n
      ensures forall id: nat :: id in ids <==> id < n && NonEmpty(id)
      ensures forall i, j :: 0 <= i < j < |ids| ==> ids[i] < ids[j]
    {
      if n == 0 then []
      else
        var prev := NonEmptyIds(n - 1);
        assert forall i :: 0 <= i < |prev| ==> prev[i] < n - 1 by {
          forall i | 0 <= i < |prev| ensures prev[i] < n - 1 {
            assert prev[i] in prev;
          }
        }
        prev + (if NonEmpty(n - 1) then [n - 1] else [])
    }

    /** The first half of the iterator's initialisation: the non-empty buckets in bucket order. */
    method CollectNonEmptyIds() returns (ids: seq<nat>)
      requires NumBuckets() <= |fileData|
      ensures ids == NonEmptyIds(NumBuckets())
    {
      var numBuckets := NumBuckets();
      ids := [];
      var bucketId := 0;
      while bucketId < numBuckets
        invariant bucketId <= numBuckets
        invariant ids == NonEmptyIds(bucketId)
      {
        if fileData[bucketId].key != unusedKey {
          ids := ids + [bucketId];
        }
        bucketId := bucketId + 1;
      }
    }

    /** An order of the non-empty buckets: each exactly once, by user key. */
    ghost predicate IteratorOrder(ids: seq<nat>)
      reads this
    {
      && SortedBy(ids, ByUserKey(fileData, userKeyLength))
      && (forall id: nat :: id in ids <==> id < NumBuckets() && NonEmpty(id))
      && (forall id :: id in ids ==> multiset(ids)[id] == 1)
      && |ids| <= NumBuckets()
    }

    /**
     * The second half of the iterator's initialisation, `std::sort` by user
     * key: the result visits every non-empty bucket exactly once, in
     * user-key order.
     */
    method SortByUserKey(ids: seq<nat>) returns (sorted: seq<nat>)
      requires ids == NonEmptyIds(NumBuckets())
      ensures IteratorOrder(sorted)
    {
      var le := ByUserKey(fileData, userKeyLength);
      ByUserKeyTotalPreorder(fileData, userKeyLength);
      SortBySorted(ids, le);
      SortBySameElements(ids, le);
      sorted := SortBy(ids, le);
      forall id | id in sorted ensures multiset(sorted)[id] == 1 {
        IncreasingCountsOnce(ids, id);
      }
    }

    /**
     * The internal key the iterator shows for a bucket: on the last level the
     * user key with sequence number 0 and type kTypeValue, elsewhere the
     * stored key.
     */
    function KeyAt(id: nat): Bytes
      reads this
    {
      if id >= |fileData| then []
      else if isLastLevel then
        UserKeyOf(fileData, userKeyLength, id) + InternalKeyFooter(0, kTypeValue)
      else if keyLength <= |fileData[id].key| then fileData[id].key[..keyLength]
      else []
    }

    function ValueAt(id: nat): Bytes
      reads this
    {
      if id < |fileData| then fileData[id].value else []
    }

    /** A last-level entry's key decodes to sequence number 0 and type kTypeValue. */
    lemma LastLevelKeyHasSequenceZero(id: nat)
      requires TableValid() && isLastLevel && id < |fileData|
      ensures var k := KeyAt(id);
              |k| == userKeyLength + 8
              && k[..userKeyLength] == fileData[id].key[..userKeyLength]
              && DecodeLE(k[userKeyLength..]) / 256 == 0
              && DecodeLE(k[userKeyLength..]) % 256 == kTypeValue
    {
      var k := KeyAt(id);
      assert k[userKeyLength..] == InternalKeyFooter(0, kTypeValue);
      Pow256Widths();
      DecodeEncode(PackSequenceAndType(0, kTypeValue), 8);
    }
  }

  /** Iterates a cuckoo table's entries in user-key order; positions are indices into the sorted bucket ids. */
  class CuckooTableIterator {
    const reader: CuckooTableReader
    var initialized: bool
    var sortedBucketIds: seq<nat>
    var currKeyIdx: UInt32
    var currKey: Bytes
    var currValue: Bytes

    /** The sorted ids once initialised; key and value mirror the current position. */
    ghost predicate Inv()
      reads this, reader
    {
      IdsInv() && KVInv()
    }

    ghost predicate IdsInv()
      reads this`initialized, this`sortedBucketIds, reader
    {
      reader.Iterable()
      && (initialized ==> reader.IteratorOrder(sortedBucketIds))
      && (!initialized ==> sortedBucketIds == [])
    }

    ghost predicate KVInv()
      reads this`currKeyIdx, this`sortedBucketIds, this`currKey, this`currValue, reader
    {
      && (Valid() ==> currKey == reader.KeyAt(sortedBucketIds[currKeyIdx])
                      && currValue == reader.ValueAt(sortedBucketIds[currKeyIdx]))
      && (!Valid() ==> currKey == [] && currValue == [])
    }

    constructor (reader: CuckooTableReader)
      requires reader.Iterable()
      ensures this.reader == reader && Inv()
      ensures !initialized && sortedBucketIds == [] && currKeyIdx == kInvalidIndex
    {
      this.reader := reader;
      initialized := false;
      currKeyIdx := kInvalidIndex;
      sortedBucketIds := [];
      currValue := [];
      currKey := [];
    }

    predicate Valid()
      reads this`currKeyIdx, this`sortedBucketIds
    {
      currKeyIdx < |sortedBucketIds|
    }

    /**
     * Collects and sorts the non-empty buckets once; later calls change
     * nothing.
     */
    method InitIfNeeded()
      requires Inv()
      modifies this
      ensures Inv() && initialized
      ensures old(initialized) ==>
                sortedBucketIds == old(sortedBucketIds) && currKeyIdx == old(currKeyIdx)
                && currKey == old(currKey) && currValue == old(currValue)
      ensures !old(initialized) ==> currKeyIdx == kInvalidIndex
    {
      if initialized {
        return;
      }
      var ids := reader.CollectNonEmptyIds();
      sortedBucketIds := reader.SortByUserKey(ids);
      currKeyIdx := kInvalidIndex;
      initialized := true;
    }

    /** The sorted ids are non-empty exactly when some scanned bucket is. */
    lemma NonEmptyWhenSomeBucketIs()
      requires IdsInv() && initialized
      ensures sortedBucketIds != [] <==> exists id: nat :: id < reader.NumBuckets() && reader.NonEmpty(id)
    {
      if sortedBucketIds != [] {
        assert sortedBucketIds[0] in sortedBucketIds;
      }
    }

    /** Loads the key and value of the current position, or clears them when it is invalid. */
    method PrepareKVAtCurrIdx()
      requires IdsInv()
      modifies this`currKey, this`currValue
      ensures KVInv()
    {
      if !Valid() {
        currValue := [];
        currKey := [];
        return;
      }
      var id := sortedBucketIds[currKeyIdx];
      assert id in sortedBucketIds;
      var bucket := reader.fileData[id];
      if reader.isLastLevel {
        currKey := bucket.key[..reader.userKeyLength] + InternalKeyFooter(0, kTypeValue);
      } else {
        currKey := bucket.key[..reader.keyLength];
      }
      currValue := bucket.value;
    }

    /** Positions on the first entry (invalid for an empty table). */
    method SeekToFirst()
      requires Inv()
      modifies this
      ensures Inv() && initialized && currKeyIdx == 0
      ensures Valid() <==> exists id: nat :: id < reader.NumBuckets() && reader.NonEmpty(id)
    {
      InitIfNeeded();
      currKeyIdx := 0;
      PrepareKVAtCurrIdx();
      NonEmptyWhenSomeBucketIs();
    }

    /**
     * Positions on the last entry.  The index is `size() - 1` truncated to
     * 32 bits, which on an empty table is the invalid index.
     */
    method SeekToLast()
      requires Inv()
      modifies this
      ensures Inv() && initialized
      ensures sortedBucketIds != [] ==> currKeyIdx == |sortedBucketIds| - 1
      ensures sortedBucketIds == [] ==> currKeyIdx == kInvalidIndex
      ensures Valid() <==> exists id: nat :: id < reader.NumBuckets() && reader.NonEmpty(id)
    {
      InitIfNeeded();
      currKeyIdx := if sortedBucketIds == [] then kInvalidIndex else |sortedBucketIds| - 1;
      PrepareKVAtCurrIdx();
      NonEmptyWhenSomeBucketIs();
    }

    /**
     * Positions on the first entry whose user key is not below the target's
     * (the target's first `userKeyLength` bytes).
     */
    method Seek(target: Bytes)
      requires Inv() && |target| >= 8 && |target| >= reader.userKeyLength
      modifies this
      ensures Inv() && initialized
      ensures var t := target[..reader.userKeyLength];
              && currKeyIdx <= |sortedBucketIds|
              && (forall j :: 0 <= j < currKeyIdx ==>
                    Less(UserKeyOf(reader.fileData, reader.userKeyLength, sortedBucketIds[j]), t))
              && (forall j :: currKeyIdx <= j < |sortedBucketIds| ==>
                    !Less(UserKeyOf(reader.fileData, reader.userKeyLength, sortedBucketIds[j]), t))
    {
      InitIfNeeded();
      var t := target[..reader.userKeyLength];
      SortedIsPartitioned(sortedBucketIds, reader.fileData, reader.userKeyLength, t);
      var idx := PartitionPoint(sortedBucketIds, NotBelowKey(reader.fileData, reader.userKeyLength, t));
      currKeyIdx := idx;
      PrepareKVAtCurrIdx();
    }

    /** Advances; an invalid iterator stays where it is, with key and value cleared. */
    method Next()
      requires Inv()
      modifies this
      ensures Inv() && initialized == old(initialized) && sortedBucketIds == old(sortedBucketIds)
      ensures old(Valid()) ==> currKeyIdx == old(currKeyIdx) + 1
      ensures !old(Valid()) ==> currKeyIdx == old(currKeyIdx) && !Valid()
    {
      if !Valid() {
        currValue := [];
        currKey := [];
        return;
      }
      currKeyIdx := currKeyIdx + 1;
      PrepareKVAtCurrIdx();
    }

    /**
     * Steps back; from the first entry the index becomes the end, so the
     * iterator turns invalid instead of wrapping around.
     */
    method Prev()
      requires Inv()
      modifies this
      ensures Inv() && initialized == old(initialized) && sortedBucketIds == old(sortedBucketIds)
      ensures old(currKeyIdx) == 0 ==> currKeyIdx == |sortedBucketIds| && !Valid()
      ensures old(currKeyIdx) != 0 && old(Valid()) ==> currKeyIdx == old(currKeyIdx) - 1 && Valid()
      ensures old(currKeyIdx) != 0 && !old(Valid()) ==> currKeyIdx == old(currKeyIdx) && !Valid()
    {
      if currKeyIdx == 0 {
        currKeyIdx := |sortedBucketIds|;
      }
      if !Valid() {
        currValue := [];
        currKey := [];
        return;
      }
      currKeyIdx := currKeyIdx - 1;
      PrepareKVAtCurrIdx();
    }

    function Key(): (k: Bytes)
      reads this, reader
      requires Inv() && Valid()
      ensures k == reader.KeyAt(sortedBucketIds[currKeyIdx])
    {
      currKey
    }

    function Value(): (v: Bytes)
      reads this, reader
      requires Inv() && Valid()
      ensures v == reader.ValueAt(sortedBucketIds[currKeyIdx])
    {
      currValue
    }
  }
}
