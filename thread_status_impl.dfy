/**
 * The static helpers of ThreadStatus: names of thread types, operations,
 * stages and states, and the decoding of a compaction's or a flush's packed
 * operation properties into a name-to-value map.
 *
 * The name tables live in util/thread_operation.h, which is not part of this
 * model: they are the parameter `tables`, one name per enum value in enum
 * order.  The enum constants come from include/rocksdb/thread_status.h, which
 * is not part of this model either; the values used are RocksDB's.
 */
module ThreadStatus {

  const TWO_TO_64: nat := 0x1_0000_0000_0000_0000
  const TWO_TO_32: nat := 0x1_0000_0000

  type UInt64 = x: nat | x < TWO_TO_64

  datatype ThreadType = HIGH_PRIORITY | LOW_PRIORITY | USER | BOTTOM_PRIORITY | NUM_THREAD_TYPES

  /** OperationType, OperationStage and StateType values. */
  const OP_UNKNOWN: int := 0
  const OP_COMPACTION: int := 1
  const OP_FLUSH: int := 2
  const STAGE_UNKNOWN: int := 0
  const STATE_UNKNOWN: int := 0

  /** Property slots every thread record has, and the slots compactions and flushes use. */
  const kNumOperationProperties: nat := 6
  const NUM_COMPACTION_PROPERTIES: nat := 6
  const NUM_FLUSH_PROPERTIES: nat := 3
  const COMPACTION_INPUT_OUTPUT_LEVEL: nat := 1
  const COMPACTION_PROP_FLAGS: nat := 2

  /** The name tables, indexed by enum value; entry 0 of the first three is the UNKNOWN entry. */
  datatype NameTables = NameTables(
    operations: seq<string>,
    stages: seq<string>,
    states: seq<string>,
    compactionProperties: seq<string>,
    flushProperties: seq<string>)
  {
    predicate WellFormed()
    {
      |operations| > OP_UNKNOWN && |stages| > STAGE_UNKNOWN && |states| > STATE_UNKNOWN
      && |compactionProperties| == NUM_COMPACTION_PROPERTIES
      && |flushProperties| == NUM_FLUSH_PROPERTIES
    }
  }

  /** The display name of a thread type; the count sentinel is asserted never to be passed. */
  function GetThreadTypeName(threadType: ThreadType): (name: string)
    requires threadType != NUM_THREAD_TYPES
    ensures name != "" && name != "Unknown"
  {
    match threadType
    case HIGH_PRIORITY => "High Pri"
    case LOW_PRIORITY => "Low Pri"
    case USER => "User"
    case BOTTOM_PRIORITY => "Bottom Pri"
  }

  /** Every thread type has its own name, none of them the fallback "Unknown". */
  lemma ThreadTypeNamesDistinct(a: ThreadType, b: ThreadType)
    requires a != NUM_THREAD_TYPES && b != NUM_THREAD_TYPES
    ensures GetThreadTypeName(a) == GetThreadTypeName(b) <==> a == b
    ensures GetThreadTypeName(a) != "Unknown"
  {
  }

  /**
   * A lookup in an enum-indexed name table: the entry of an in-range value,
   * the UNKNOWN entry (index 0) for a negative value or one past the table.
   */
  function TableName(table: seq<string>, value: int): (name: string)
    requires |table| > 0
    ensures name in table
    ensures 0 <= value < |table| ==> name == table[value]
    ensures value < 0 || value >= |table| ==> name == table[0]
  {
    if value < 0 || value >= |table| then table[0] else table[value]
  }

  function GetOperationName(opType: int, tables: NameTables): (name: string)
    requires tables.WellFormed()
    ensures 0 <= opType < |tables.operations| ==> name == tables.operations[opType]
    ensures opType < 0 || opType >= |tables.operations| ==> name == tables.operations[OP_UNKNOWN]
  {
    TableName(tables.operations, opType)
  }

  function GetOperationStageName(stage: int, tables: NameTables): (name: string)
    requires tables.WellFormed()
    ensures 0 <= stage < |tables.stages| ==> name == tables.stages[stage]
    ensures stage < 0 || stage >= |tables.stages| ==> name == tables.stages[STAGE_UNKNOWN]
  {
    TableName(tables.stages, stage)
  }

  function GetStateName(stateType: int, tables: NameTables): (name: string)
    requires tables.WellFormed()
    ensures 0 <= stateType < |tables.states| ==> name == tables.states[stateType]
    ensures stateType < 0 || stateType >= |tables.states| ==> name == tables.states[STATE_UNKNOWN]
  {
    TableName(tables.states, stateType)
  }

  /**
   * Zero microseconds print as the empty string; any other count is handed
   * to the human-readable formatter, a foreign function given as a parameter.
   */
  function MicrosToString(micros: UInt64, appendHumanMicros: UInt64 -> string): (s: string)
    ensures micros == 0 ==> s == ""
    ensures micros != 0 ==> s == appendHumanMicros(micros)
  {
    if micros == 0 then "" else appendHumanMicros(micros)
  }

  /** How many property slots an operation type uses: 6 for compaction, 3 for flush, none otherwise. */
  function NumProperties(opType: int): (n: nat)
    ensures n <= kNumOperationProperties
  {
    if opType == OP_COMPACTION then NUM_COMPACTION_PROPERTIES
    else if opType == OP_FLUSH then NUM_FLUSH_PROPERTIES
    else 0
  }

  /** The property-name table of an operation type; empty for types without properties. */
  function PropertyNames(opType: int, tables: NameTables): (names: seq<string>)
    requires tables.WellFormed()
    ensures |names| == NumProperties(opType)
  {
    if opType == OP_COMPACTION then tables.compactionProperties
    else if opType == OP_FLUSH then tables.flushProperties
    else []
  }

  /**
   * The name of property slot `i`: the table entry for a slot the operation
   * uses, the empty string past the count or for any other operation type.
   * A negative slot would index before the table.
   */
  function GetOperationPropertyName(opType: int, i: int, tables: NameTables): (name: string)
    requires tables.WellFormed()
    requires opType == OP_COMPACTION || opType == OP_FLUSH ==> i >= 0
    ensures 0 <= i < NumProperties(opType) ==> name == PropertyNames(opType, tables)[i]
    ensures i >= NumProperties(opType) ==> name == ""
    ensures opType != OP_COMPACTION && opType != OP_FLUSH ==> name == ""
  {
    if opType == OP_COMPACTION then
      if i >= NUM_COMPACTION_PROPERTIES then "" else tables.compactionProperties[i]
    else if opType == OP_FLUSH then
      if i >= NUM_FLUSH_PROPERTIES then "" else tables.flushProperties[i]
    else ""
  }

  /** `std::map::insert`: a key already present keeps its value. */
  function Insert(m: map<string, UInt64>, k: string, v: UInt64): (r: map<string, UInt64>)
    ensures r.Keys == m.Keys + {k}
    ensures k in m ==> r[k] == m[k]
    ensures k !in m ==> r[k] == v && r == m[k := v]
    ensures forall j :: j in m ==> r[j] == m[j]
  {
    if k in m then m else m[k := v]
  }

  /** Bit `k` of `v`, as `(v & 2^k) >> k` extracts it. */
  function Bit(v: UInt64, k: nat): (b: UInt64)
    ensures b <= 1
  {
    (v / Pow2(k)) % 2
  }

  function Pow2(k: nat): (p: nat)
    ensures p >= 1
  {
    if k == 0 then 1 else 2 * Pow2(k - 1)
  }

  /** What one turn of the decoding loop inserts for slot `i` holding `v`. */
  function InterpretStep(m: map<string, UInt64>, opType: int, i: nat, v: UInt64, tables: NameTables)
    : map<string, UInt64>
    requires tables.WellFormed()
  {
    if opType == OP_COMPACTION && i == COMPACTION_INPUT_OUTPUT_LEVEL then
      Insert(Insert(m, "BaseInputLevel", v / TWO_TO_32), "OutputLevel", v % TWO_TO_32)
    else if opType == OP_COMPACTION && i == COMPACTION_PROP_FLAGS then
      Insert(Insert(Insert(m, "IsManual", Bit(v, 1)), "IsDeletion", Bit(v, 2)), "IsTrivialMove", Bit(v, 3))
    else
      Insert(m, GetOperationPropertyName(opType, i, tables), v)
  }

  /** The map after the first `n` slots have been decoded. */
  function Interpreted(opType: int, props: seq<UInt64>, tables: NameTables, n: nat): map<string, UInt64>
    requires tables.WellFormed() && n <= |props|
  {
    if n == 0 then map[]
    else InterpretStep(Interpreted(opType, props, tables, n - 1), opType, n - 1, props[n - 1], tables)
  }

  /**
   * Decodes a thread's property slots: the map a caller displays for the
   * operation.  Types other than compaction and flush have no properties.
   */
  method InterpretOperationProperties(opType: int, opProperties: seq<UInt64>, tables: NameTables)
    returns (propertyMap: map<string, UInt64>)
    requires tables.WellFormed() && |opProperties| == kNumOperationProperties
    ensures propertyMap == Interpreted(opType, opProperties, tables, NumProperties(opType))
    ensures opType != OP_COMPACTION && opType != OP_FLUSH ==> propertyMap == map[]
  {
    var numProperties: nat;
    if opType == OP_COMPACTION {
      numProperties := NUM_COMPACTION_PROPERTIES;
    } else if opType == OP_FLUSH {
      numProperties := NUM_FLUSH_PROPERTIES;
    } else {
      numProperties := 0;
    }
    propertyMap := map[];
    for i := 0 to numProperties
      invariant propertyMap == Interpreted(opType, opProperties, tables, i)
    {
      var v := opProperties[i];
      if opType == OP_COMPACTION && i == COMPACTION_INPUT_OUTPUT_LEVEL {
        propertyMap := Insert(propertyMap, "BaseInputLevel", v / TWO_TO_32);
        propertyMap := Insert(propertyMap, "OutputLevel", v % TWO_TO_32);
      } else if opType == OP_COMPACTION && i == COMPACTION_PROP_FLAGS {
        propertyMap := Insert(propertyMap, "IsManual", Bit(v, 1));
        propertyMap := Insert(propertyMap, "IsDeletion", Bit(v, 2));
        propertyMap := Insert(propertyMap, "IsTrivialMove", Bit(v, 3));
      } else {
        propertyMap := Insert(propertyMap, GetOperationPropertyName(opType, i, tables), v);
      }
    }
  }

  /** Decoding more slots never changes or drops an entry already in the map: the first insert wins. */
  lemma {:induction false} InterpretedKeepsFirst(opType: int, props: seq<UInt64>, tables: NameTables, n: nat, m: nat)
    requires tables.WellFormed() && n <= m <= |props|
    ensures forall k :: k in Interpreted(opType, props, tables, n) ==>
              k in Interpreted(opType, props, tables, m)
              && Interpreted(opType, props, tables, m)[k] == Interpreted(opType, props, tables, n)[k]
    decreases m
  {
    if n < m {
      InterpretedKeepsFirst(opType, props, tables, n, m - 1);
    }
  }

  /** With distinct flush property names, each name maps to its own slot's raw value. */
  lemma InterpretFlush(props: seq<UInt64>, tables: NameTables)
    requires tables.WellFormed() && |props| == kNumOperationProperties
    requires forall i, j :: 0 <= i < j < NUM_FLUSH_PROPERTIES ==> tables.flushProperties[i] != tables.flushProperties[j]
    ensures Interpreted(OP_FLUSH, props, tables, NumProperties(OP_FLUSH))
              == map[tables.flushProperties[0] := props[0], tables.flushProperties[1] := props[1],
                     tables.flushProperties[2] := props[2]]
  {
    var n := tables.flushProperties;
    assert n[0] != n[1] && n[0] != n[2] && n[1] != n[2];
    var r0: map<string, UInt64> := Interpreted(OP_FLUSH, props, tables, 0);
    assert r0 == map[];
    var r1 := Interpreted(OP_FLUSH, props, tables, 1);
    assert GetOperationPropertyName(OP_FLUSH, 0, tables) == n[0];
    assert r1 == r0[n[0] := props[0]];
    var r2 := Interpreted(OP_FLUSH, props, tables, 2);
    assert r2 == r1[n[1] := props[1]];
    var r3 := Interpreted(OP_FLUSH, props, tables, 3);
    assert r3 == r2[n[2] := props[2]];
  }

  /**
   * A compaction's slots decode to the input and output levels of slot 1
   * (high and low 32 bits), the manual, deletion and trivial-move flags of
   * slot 2 (bits 1, 2 and 3) and the raw values of slots 0, 3, 4 and 5 under
   * their names, provided those names are distinct from each other and from
   * the five fixed keys.
   */
  lemma InterpretCompaction(props: seq<UInt64>, tables: NameTables)
    requires tables.WellFormed() && |props| == kNumOperationProperties
    requires var n := tables.compactionProperties;
             n[0] != n[3] && n[0] != n[4] && n[0] != n[5] && n[3] != n[4] && n[3] != n[5] && n[4] != n[5]
    requires forall i :: (0 <= i < NUM_COMPACTION_PROPERTIES && i != COMPACTION_INPUT_OUTPUT_LEVEL
                          && i != COMPACTION_PROP_FLAGS) ==>
               tables.compactionProperties[i] !in {"BaseInputLevel", "OutputLevel", "IsManual", "IsDeletion", "IsTrivialMove"}
    ensures var n := tables.compactionProperties;
            var base: UInt64, output: UInt64 := props[1] / TWO_TO_32, props[1] % TWO_TO_32;
            Interpreted(OP_COMPACTION, props, tables, NumProperties(OP_COMPACTION))
              == map[n[0] := props[0], "BaseInputLevel" := base, "OutputLevel" := output,
                     "IsManual" := Bit(props[2], 1), "IsDeletion" := Bit(props[2], 2),
                     "IsTrivialMove" := Bit(props[2], 3), n[3] := props[3], n[4] := props[4], n[5] := props[5]]
  {
    var n := tables.compactionProperties;
    assert n[0] !in {"BaseInputLevel", "OutputLevel", "IsManual", "IsDeletion", "IsTrivialMove"};
    assert n[3] !in {"BaseInputLevel", "OutputLevel", "IsManual", "IsDeletion", "IsTrivialMove"};
    assert n[4] !in {"BaseInputLevel", "OutputLevel", "IsManual", "IsDeletion", "IsTrivialMove"};
    assert n[5] !in {"BaseInputLevel", "OutputLevel", "IsManual", "IsDeletion", "IsTrivialMove"};
    var base: UInt64, output: UInt64 := props[1] / TWO_TO_32, props[1] % TWO_TO_32;
    var manual, deletion, trivial := Bit(props[2], 1), Bit(props[2], 2), Bit(props[2], 3);
    assert Interpreted(OP_COMPACTION, props, tables, 0) == map[];
    assert GetOperationPropertyName(OP_COMPACTION, 0, tables) == n[0];
    assert Interpreted(OP_COMPACTION, props, tables, 1) == map[n[0] := props[0]];
    assert Interpreted(OP_COMPACTION, props, tables, 2)
        == map[n[0] := props[0], "BaseInputLevel" := base, "OutputLevel" := output];
    assert Interpreted(OP_COMPACTION, props, tables, 3)
        == map[n[0] := props[0], "BaseInputLevel" := base, "OutputLevel" := output,
               "IsManual" := manual, "IsDeletion" := deletion, "IsTrivialMove" := trivial];
    assert Interpreted(OP_COMPACTION, props, tables, 4)
        == map[n[0] := props[0], "BaseInputLevel" := base, "OutputLevel" := output,
               "IsManual" := manual, "IsDeletion" := deletion, "IsTrivialMove" := trivial, n[3] := props[3]];
    assert Interpreted(OP_COMPACTION, props, tables, 5)
        == map[n[0] := props[0], "BaseInputLevel" := base, "OutputLevel" := output,
               "IsManual" := manual, "IsDeletion" := deletion, "IsTrivialMove" := trivial, n[3] := props[3],
               n[4] := props[4]];
  }
}
