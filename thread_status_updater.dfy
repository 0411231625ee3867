/**
 * ThreadStatusUpdater: each thread owns one status record, reachable from a
 * thread-local pointer and listed in a global set; the record's operation,
 * stage, state and property slots are written only while tracking is on.  A
 * global registry maps column-family keys to their database and names, and
 * database keys to the set of their column-family keys.
 *
 * One calling thread is modelled: its thread-local pointer is the field
 * `local`; records of other threads are members of `threadDataSet`.  Atomics,
 * memory orders and the list mutex are sequentialised.  The record's
 * declaration (monitoring/thread_status_updater.h) is not part of this model:
 * a new record is taken to start untracked, as a USER thread with id 0, no
 * column family, no operation and zero properties.
 */
module ThreadStatusUpdaters {
  import opened ThreadStatus

  /** An opaque `const void*` key; 0 is nullptr. */
  type Ptr = nat

  const NULL: Ptr := 0

  datatype ConstantColumnFamilyInfo = ConstantColumnFamilyInfo(dbKey: Ptr, dbName: string, cfName: string)

  type CfInfoMap = map<Ptr, ConstantColumnFamilyInfo>
  type DbKeyMap = map<Ptr, set<Ptr>>

  /** The values of a status record's fields at one moment. */
  datatype Fields = Fields(
    enableTracking: bool,
    threadId: UInt64,
    threadType: ThreadType,
    cfKey: Ptr,
    operationType: int,
    operationStage: int,
    stateType: int,
    opStartTime: UInt64,
    opProperties: seq<UInt64>)

  /** One row of GetThreadList. */
  datatype ThreadStatusInfo = ThreadStatusInfo(
    threadId: UInt64,
    threadType: ThreadType,
    dbName: string,
    cfName: string,
    operationType: int,
    opElapsedMicros: UInt64,
    operationStage: int,
    opProperties: seq<UInt64>,
    stateType: int)

  function Zeros(): (z: seq<UInt64>)
    ensures |z| == kNumOperationProperties && forall i :: 0 <= i < |z| ==> z[i] == 0
  {
    seq(kNumOperationProperties, _ => 0)
  }

  function InitialFields(): Fields
  {
    Fields(false, 0, USER, NULL, OP_UNKNOWN, STAGE_UNKNOWN, STATE_UNKNOWN, 0, Zeros())
  }

  /**
   * The registry invariant: a column family is in its database's key set
   * exactly when its info names that database.
   */
  ghost predicate Consistent(cfInfo: CfInfoMap, dbKeys: DbKeyMap)
  {
    (forall cf :: cf in cfInfo ==> cfInfo[cf].dbKey in dbKeys && cf in dbKeys[cfInfo[cf].dbKey])
    && (forall d, cf :: d in dbKeys && cf in dbKeys[d] ==> cf in cfInfo && cfInfo[cf].dbKey == d)
  }

  /** `emplace` keeps an existing entry; `db_key_map_[db]` creates an empty set when missing. */
  function CfInfoAfterNew(cfInfo: CfInfoMap, dbKey: Ptr, dbName: string, cfKey: Ptr, cfName: string)
    : (r: CfInfoMap)
    ensures cfKey in r && r.Keys == cfInfo.Keys + {cfKey}
    ensures cfKey !in cfInfo ==> r[cfKey] == ConstantColumnFamilyInfo(dbKey, dbName, cfName)
    ensures forall cf :: cf in cfInfo ==> r[cf] == cfInfo[cf]
  {
    if cfKey in cfInfo then cfInfo else cfInfo[cfKey := ConstantColumnFamilyInfo(dbKey, dbName, cfName)]
  }

  function DbKeysAfterNew(dbKeys: DbKeyMap, dbKey: Ptr, cfKey: Ptr): (r: DbKeyMap)
    ensures r.Keys == dbKeys.Keys + {dbKey}
    ensures r[dbKey] == (if dbKey in dbKeys then dbKeys[dbKey] else {}) + {cfKey}
    ensures forall d :: d in dbKeys && d != dbKey ==> r[d] == dbKeys[d]
  {
    dbKeys[dbKey := (if dbKey in dbKeys then dbKeys[dbKey] else {}) + {cfKey}]
  }

  /** Registering a column family keeps the registry consistent unless its key is already taken by another database. */
  lemma NewColumnFamilyKeepsConsistent(cfInfo: CfInfoMap, dbKeys: DbKeyMap, dbKey: Ptr, dbName: string,
                                       cfKey: Ptr, cfName: string)
    requires Consistent(cfInfo, dbKeys)
    requires cfKey !in cfInfo || cfInfo[cfKey].dbKey == dbKey
    ensures Consistent(CfInfoAfterNew(cfInfo, dbKey, dbName, cfKey, cfName), DbKeysAfterNew(dbKeys, dbKey, cfKey))
    ensures var r := CfInfoAfterNew(cfInfo, dbKey, dbName, cfKey, cfName);
            r[cfKey].dbKey == dbKey && cfKey in DbKeysAfterNew(dbKeys, dbKey, cfKey)[dbKey]
  {
    var r := CfInfoAfterNew(cfInfo, dbKey, dbName, cfKey, cfName);
    var s := DbKeysAfterNew(dbKeys, dbKey, cfKey);
    forall cf | cf in r ensures r[cf].dbKey in s && cf in s[r[cf].dbKey] {
      if cf != cfKey {
        assert cf in cfInfo && cf in dbKeys[cfInfo[cf].dbKey];
      }
    }
  }

  /** The same key registered under a second database breaks the invariant. */
  lemma NewColumnFamilyUnderOtherDatabase(cfInfo: CfInfoMap, dbKeys: DbKeyMap, dbKey: Ptr, dbName: string,
                                          cfKey: Ptr, cfName: string)
    requires cfKey in cfInfo && cfInfo[cfKey].dbKey != dbKey
    ensures !Consistent(CfInfoAfterNew(cfInfo, dbKey, dbName, cfKey, cfName), DbKeysAfterNew(dbKeys, dbKey, cfKey))
  {
    var s := DbKeysAfterNew(dbKeys, dbKey, cfKey);
    assert dbKey in s && cfKey in s[dbKey];
  }

  /** The key set of a column family's database loses that key; nothing happens for an unknown key. */
  function DbKeysAfterEraseCf(cfInfo: CfInfoMap, dbKeys: DbKeyMap, cfKey: Ptr): DbKeyMap
    requires cfKey in cfInfo ==> cfInfo[cfKey].dbKey in dbKeys
  {
    if cfKey in cfInfo then
      var d := cfInfo[cfKey].dbKey;
      dbKeys[d := dbKeys[d] - {cfKey}]
    else dbKeys
  }

  lemma EraseColumnFamilyKeepsConsistent(cfInfo: CfInfoMap, dbKeys: DbKeyMap, cfKey: Ptr)
    requires Consistent(cfInfo, dbKeys)
    ensures Consistent(cfInfo - {cfKey}, DbKeysAfterEraseCf(cfInfo, dbKeys, cfKey))
    ensures forall d :: d in dbKeys <==> d in DbKeysAfterEraseCf(cfInfo, dbKeys, cfKey)
  {
    var r := cfInfo - {cfKey};
    var s := DbKeysAfterEraseCf(cfInfo, dbKeys, cfKey);
    forall cf | cf in r ensures r[cf].dbKey in s && cf in s[r[cf].dbKey] {
      assert cf in dbKeys[cfInfo[cf].dbKey];
    }
    forall d, cf | d in s && cf in s[d] ensures cf in r && r[cf].dbKey == d {
      assert cf in dbKeys[d];
    }
  }

  /** Erasing a database drops every column family of its key set. */
  function CfInfoAfterEraseDb(cfInfo: CfInfoMap, dbKeys: DbKeyMap, dbKey: Ptr): CfInfoMap
  {
    if dbKey in dbKeys then cfInfo - dbKeys[dbKey] else cfInfo
  }

  /**
   * Erasing a database keeps the registry consistent and removes exactly
   * the column families registered under it.
   */
  lemma EraseDatabaseKeepsConsistent(cfInfo: CfInfoMap, dbKeys: DbKeyMap, dbKey: Ptr)
    requires Consistent(cfInfo, dbKeys)
    ensures Consistent(CfInfoAfterEraseDb(cfInfo, dbKeys, dbKey), dbKeys - {dbKey})
    ensures forall cf :: cf in CfInfoAfterEraseDb(cfInfo, dbKeys, dbKey) <==> cf in cfInfo && cfInfo[cf].dbKey != dbKey
  {
    var r := CfInfoAfterEraseDb(cfInfo, dbKeys, dbKey);
    var s := dbKeys - {dbKey};
    forall cf ensures cf in r <==> cf in cfInfo && cfInfo[cf].dbKey != dbKey {
      if cf in cfInfo && dbKey in dbKeys && cf in dbKeys[dbKey] {
        assert cfInfo[cf].dbKey == dbKey;
      }
    }
    forall cf | cf in r ensures r[cf].dbKey in s && cf in s[r[cf].dbKey] {
      assert cf in dbKeys[cfInfo[cf].dbKey];
    }
  }

  /**
   * What GetThreadList reports for one record: its column family's names
   * only when the column family is registered, the operation only then, and
   * elapsed time, stage, state and properties only for a known operation.
   */
  function Report(f: Fields, cfInfo: CfInfoMap, nowMicros: UInt64): (r: ThreadStatusInfo)
    requires |f.opProperties| == kNumOperationProperties
    ensures r.threadId == f.threadId && r.threadType == f.threadType
    ensures f.cfKey !in cfInfo ==> r.operationType == OP_UNKNOWN && r.dbName == "" && r.cfName == ""
    ensures f.cfKey in cfInfo ==>
              r.operationType == f.operationType
              && r.dbName == cfInfo[f.cfKey].dbName && r.cfName == cfInfo[f.cfKey].cfName
    ensures r.operationType == OP_UNKNOWN ==>
              r.operationStage == STAGE_UNKNOWN && r.stateType == STATE_UNKNOWN
              && r.opElapsedMicros == 0 && r.opProperties == Zeros()
    ensures r.operationType != OP_UNKNOWN ==>
              r.operationStage == f.operationStage && r.stateType == f.stateType
              && r.opProperties == f.opProperties
              && r.opElapsedMicros == (nowMicros - f.opStartTime) % TWO_TO_64
  {
    var registered := f.cfKey in cfInfo;
    var opType := if registered then f.operationType else OP_UNKNOWN;
    var known := opType != OP_UNKNOWN;
    ThreadStatusInfo(
      f.threadId, f.threadType,
      if registered then cfInfo[f.cfKey].dbName else "",
      if registered then cfInfo[f.cfKey].cfName else "",
      opType,
      if known then (nowMicros - f.opStartTime) % TWO_TO_64 else 0,
      if known then f.operationStage else STAGE_UNKNOWN,
      if known then f.opProperties else Zeros(),
      if known then f.stateType else STATE_UNKNOWN)
  }

  /** The reports of several records, in order. */
  function Reports(fs: seq<Fields>, cfInfo: CfInfoMap, nowMicros: UInt64): (rows: seq<ThreadStatusInfo>)
    requires forall k :: 0 <= k < |fs| ==> |fs[k].opProperties| == kNumOperationProperties
    ensures |rows| == |fs|
  {
    if fs == [] then []
    else Reports(fs[..|fs| - 1], cfInfo, nowMicros) + [Report(fs[|fs| - 1], cfInfo, nowMicros)]
  }

  lemma {:induction false} ReportsAt(fs: seq<Fields>, cfInfo: CfInfoMap, nowMicros: UInt64, k: nat)
    requires forall k :: 0 <= k < |fs| ==> |fs[k].opProperties| == kNumOperationProperties
    requires k < |fs|
    ensures Reports(fs, cfInfo, nowMicros)[k] == Report(fs[k], cfInfo, nowMicros)
  {
    if k < |fs| - 1 {
      ReportsAt(fs[..|fs| - 1], cfInfo, nowMicros, k);
    }
  }

  /**
   * Rows built from an enumeration of the records' snapshots report every
   * record, and every row reports one of them.
   */
  lemma ListedRowsCover(records: set<ThreadStatusData>, visited: seq<ThreadStatusData>, snapshots: seq<Fields>,
                        cfInfo: CfInfoMap, nowMicros: UInt64)
    requires |visited| == |snapshots|
    requires forall k :: 0 <= k < |visited| ==> visited[k] in records && snapshots[k] == visited[k].Snapshot()
    requires forall d :: d in records ==> d in visited
    requires forall k :: 0 <= k < |snapshots| ==> |snapshots[k].opProperties| == kNumOperationProperties
    ensures forall d :: d in records ==> Report(d.Snapshot(), cfInfo, nowMicros) in Reports(snapshots, cfInfo, nowMicros)
    ensures var rows := Reports(snapshots, cfInfo, nowMicros);
            forall k :: 0 <= k < |rows| ==> exists d :: d in records && rows[k] == Report(d.Snapshot(), cfInfo, nowMicros)
  {
    var rows := Reports(snapshots, cfInfo, nowMicros);
    forall d | d in records ensures Report(d.Snapshot(), cfInfo, nowMicros) in rows {
      var k :| 0 <= k < |visited| && visited[k] == d;
      ReportsAt(snapshots, cfInfo, nowMicros, k);
    }
    forall k | 0 <= k < |rows| ensures exists d :: d in records && rows[k] == Report(d.Snapshot(), cfInfo, nowMicros) {
      ReportsAt(snapshots, cfInfo, nowMicros, k);
      assert visited[k] in records;
    }
  }

  /** A thread's status record. */
  class ThreadStatusData {
    var enableTracking: bool
    var threadId: UInt64
    var threadType: ThreadType
    var cfKey: Ptr
    var operationType: int
    var operationStage: int
    var stateType: int
    var opStartTime: UInt64
    var opProperties: seq<UInt64>

    constructor ()
      ensures Snapshot() == InitialFields()
    {
      enableTracking := false;
      threadId := 0;
      threadType := USER;
      cfKey := NULL;
      operationType := OP_UNKNOWN;
      operationStage := STAGE_UNKNOWN;
      stateType := STATE_UNKNOWN;
      opStartTime := 0;
      opProperties := Zeros();
    }

    function Snapshot(): Fields
      reads this
    {
      Fields(enableTracking, threadId, threadType, cfKey, operationType, operationStage, stateType,
             opStartTime, opProperties)
    }
  }

  class ThreadStatusUpdater {
    /** The calling thread's record, null while it is not registered. */
    var local: ThreadStatusData?
    var threadDataSet: set<ThreadStatusData>
    var cfInfoMap: CfInfoMap
    var dbKeyMap: DbKeyMap

    /** The calling thread's record is listed, and every listed record has all its property slots. */
    ghost predicate ThreadsValid()
      reads this, threadDataSet
    {
      (local != null ==> local in threadDataSet)
      && forall d :: d in threadDataSet ==> |d.opProperties| == kNumOperationProperties
    }

    ghost predicate RegistryValid()
      reads this
    {
      Consistent(cfInfoMap, dbKeyMap)
    }

    constructor ()
      ensures local == null && threadDataSet == {} && cfInfoMap == map[] && dbKeyMap == map[]
      ensures ThreadsValid() && RegistryValid()
    {
      local := null;
      threadDataSet := {};
      cfInfoMap := map[];
      dbKeyMap := map[];
    }

    /** The record when it exists and tracking is on; null otherwise. */
    function GetLocalThreadStatus(): (data: ThreadStatusData?)
      reads this, local
      ensures data != null <==> local != null && local.enableTracking
      ensures data != null ==> data == local
    {
      if local == null then null
      else if !local.enableTracking then null
      else local
    }

    predicate Tracked()
      reads this, local
    {
      GetLocalThreadStatus() != null
    }

    /**
     * Creates, lists and stamps the record on the first call only; then
     * zeroes the property slots, which a new, untracked record skips.
     */
    method RegisterThread(ttype: ThreadType, threadId: UInt64)
      requires ThreadsValid()
      modifies this, local
      ensures ThreadsValid() && local != null
      ensures cfInfoMap == old(cfInfoMap) && dbKeyMap == old(dbKeyMap)
      ensures old(local) == null ==>
                fresh(local) && threadDataSet == old(threadDataSet) + {local}
                && local.Snapshot() == InitialFields().(threadId := threadId, threadType := ttype)
      ensures old(local) != null ==>
                local == old(local) && threadDataSet == old(threadDataSet)
                && local.Snapshot() == if old(local.enableTracking)
                                       then old(local.Snapshot()).(opProperties := Zeros())
                                       else old(local.Snapshot())
    {
      if local == null {
        local := new ThreadStatusData();
        local.threadType := ttype;
        local.threadId := threadId;
        threadDataSet := threadDataSet + {local};
      }
      ClearThreadOperationProperties();
    }

    /** Unlists and drops the record; nothing happens for an unregistered thread. */
    method UnregisterThread()
      requires ThreadsValid()
      modifies this
      ensures ThreadsValid() && local == null
      ensures threadDataSet == if old(local) == null then old(threadDataSet) else old(threadDataSet) - {old(local)}
      ensures cfInfoMap == old(cfInfoMap) && dbKeyMap == old(dbKeyMap)
    {
      if local != null {
        threadDataSet := threadDataSet - {local};
        local := null;
      }
    }

    /** Switches tracking on the record whether or not tracking was on. */
    method SetEnableTracking(enableTracking: bool)
      requires ThreadsValid()
      modifies local
      ensures ThreadsValid()
      ensures local != null ==> local.Snapshot() == old(local.Snapshot()).(enableTracking := enableTracking)
    {
      var data := local;
      if data == null {
        return;
      }
      data.enableTracking := enableTracking;
    }

    /** Stores the column-family key on the record whether or not tracking is on. */
    method SetColumnFamilyInfoKey(cfKey: Ptr)
      requires ThreadsValid()
      modifies local
      ensures ThreadsValid()
      ensures local != null ==> local.Snapshot() == old(local.Snapshot()).(cfKey := cfKey)
    {
      var data := local;
      if data == null {
        return;
      }
      data.cfKey := cfKey;
    }

    /** The stored column-family key while tracked, nullptr otherwise. */
    function GetColumnFamilyInfoKey(): (cfKey: Ptr)
      reads this, local
      ensures Tracked() ==> cfKey == local.cfKey
      ensures !Tracked() ==> cfKey == NULL
    {
      var data := GetLocalThreadStatus();
      if data == null then NULL else data.cfKey
    }

    /**
     * Sets the operation type; OP_UNKNOWN also resets the stage and zeroes
     * the properties.  Untracked, nothing changes.
     */
    method SetThreadOperation(opType: int)
      requires ThreadsValid()
      modifies local
      ensures ThreadsValid()
      ensures old(Tracked()) && opType != OP_UNKNOWN ==>
                local.Snapshot() == old(local.Snapshot()).(operationType := opType)
      ensures old(Tracked()) && opType == OP_UNKNOWN ==>
                local.Snapshot() == old(local.Snapshot()).(operationType := OP_UNKNOWN,
                                                           operationStage := STAGE_UNKNOWN, opProperties := Zeros())
      ensures !old(Tracked()) && local != null ==> local.Snapshot() == old(local.Snapshot())
    {
      var data := GetLocalThreadStatus();
      if data == null {
        return;
      }
      data.operationType := opType;
      if opType == OP_UNKNOWN {
        data.operationStage := STAGE_UNKNOWN;
        ClearThreadOperationProperties();
      }
    }

    /** The operation type while tracked, OP_UNKNOWN otherwise. */
    function GetThreadOperation(): (opType: int)
      reads this, local
      ensures Tracked() ==> opType == local.operationType
      ensures !Tracked() ==> opType == OP_UNKNOWN
    {
      var data := GetLocalThreadStatus();
      if data == null then OP_UNKNOWN else data.operationType
    }

    method SetThreadOperationProperty(i: int, value: UInt64)
      requires ThreadsValid()
      requires Tracked() ==> 0 <= i < kNumOperationProperties
      modifies local
      ensures ThreadsValid()
      ensures old(Tracked()) ==>
                local.Snapshot() == old(local.Snapshot()).(opProperties := old(local.opProperties)[i := value])
      ensures !old(Tracked()) && local != null ==> local.Snapshot() == old(local.Snapshot())
    {
      var data := GetLocalThreadStatus();
      if data == null {
        return;
      }
      data.opProperties := data.opProperties[i := value];
    }

    /** Adds `delta` to slot `i`, wrapping at 2^64 as `fetch_add` does; the other slots keep their values. */
    method IncreaseThreadOperationProperty(i: int, delta: UInt64)
      requires ThreadsValid()
      requires Tracked() ==> 0 <= i < kNumOperationProperties
      modifies local
      ensures ThreadsValid()
      ensures old(Tracked()) ==>
                && |local.opProperties| == kNumOperationProperties
                && local.opProperties[i] == (old(local.opProperties[i]) + delta) % TWO_TO_64
                && (forall j :: 0 <= j < kNumOperationProperties && j != i ==>
                      local.opProperties[j] == old(local.opProperties[j]))
                && local.Snapshot() == old(local.Snapshot()).(opProperties := local.opProperties)
      ensures !old(Tracked()) && local != null ==> local.Snapshot() == old(local.Snapshot())
    {
      var data := GetLocalThreadStatus();
      if data == null {
        return;
      }
      data.opProperties := data.opProperties[i := (data.opProperties[i] + delta) % TWO_TO_64];
    }

    method SetOperationStartTime(startTime: UInt64)
      requires ThreadsValid()
      modifies local
      ensures ThreadsValid()
      ensures old(Tracked()) ==> local.Snapshot() == old(local.Snapshot()).(opStartTime := startTime)
      ensures !old(Tracked()) && local != null ==> local.Snapshot() == old(local.Snapshot())
    {
      var data := GetLocalThreadStatus();
      if data == null {
        return;
      }
      data.opStartTime := startTime;
    }

    /** Resets stage and type to unknown and zeroes every property slot. */
    method ClearThreadOperation()
      requires ThreadsValid()
      modifies local
      ensures ThreadsValid()
      ensures old(Tracked()) ==>
                local.Snapshot() == old(local.Snapshot()).(operationStage := STAGE_UNKNOWN,
                                                           operationType := OP_UNKNOWN, opProperties := Zeros())
      ensures !old(Tracked()) && local != null ==> local.Snapshot() == old(local.Snapshot())
    {
      var data := GetLocalThreadStatus();
      if data == null {
        return;
      }
      data.operationStage := STAGE_UNKNOWN;
      data.operationType := OP_UNKNOWN;
      ClearThreadOperationProperties();
    }

    /** Zeroes the property slots one by one. */
    method ClearThreadOperationProperties()
      requires ThreadsValid()
      modifies local
      ensures ThreadsValid()
      ensures old(Tracked()) ==> local.Snapshot() == old(local.Snapshot()).(opProperties := Zeros())
      ensures !old(Tracked()) && local != null ==> local.Snapshot() == old(local.Snapshot())
    {
      var data := GetLocalThreadStatus();
      if data == null {
        return;
      }
      for i := 0 to kNumOperationProperties
        invariant |data.opProperties| == kNumOperationProperties
        invariant data.Snapshot() == old(data.Snapshot()).(opProperties := data.opProperties)
        invariant forall j :: 0 <= j < i ==> data.opProperties[j] == 0
      {
        data.opProperties := data.opProperties[i := 0];
      }
      assert data.opProperties == Zeros();
    }

    /** Stores the stage and returns the one it replaces; untracked, returns STAGE_UNKNOWN. */
    method SetThreadOperationStage(stage: int) returns (previous: int)
      requires ThreadsValid()
      modifies local
      ensures ThreadsValid()
      ensures old(Tracked()) ==>
                previous == old(local.operationStage)
                && local.Snapshot() == old(local.Snapshot()).(operationStage := stage)
      ensures !old(Tracked()) ==> previous == STAGE_UNKNOWN
      ensures !old(Tracked()) && local != null ==> local.Snapshot() == old(local.Snapshot())
    {
      var data := GetLocalThreadStatus();
      if data == null {
        return STAGE_UNKNOWN;
      }
      previous := data.operationStage;
      data.operationStage := stage;
    }

    method SetThreadState(stateType: int)
      requires ThreadsValid()
      modifies local
      ensures ThreadsValid()
      ensures old(Tracked()) ==> local.Snapshot() == old(local.Snapshot()).(stateType := stateType)
      ensures !old(Tracked()) && local != null ==> local.Snapshot() == old(local.Snapshot())
    {
      var data := GetLocalThreadStatus();
      if data == null {
        return;
      }
      data.stateType := stateType;
    }

    method ClearThreadState()
      requires ThreadsValid()
      modifies local
      ensures ThreadsValid()
      ensures old(Tracked()) ==> local.Snapshot() == old(local.Snapshot()).(stateType := STATE_UNKNOWN)
      ensures !old(Tracked()) && local != null ==> local.Snapshot() == old(local.Snapshot())
    {
      var data := GetLocalThreadStatus();
      if data == null {
        return;
      }
      data.stateType := STATE_UNKNOWN;
    }

    /**
     * Clears state and operation when tracked, and drops the column-family
     * key even when not.
     */
    method ResetThreadStatus()
      requires ThreadsValid()
      modifies local
      ensures ThreadsValid()
      ensures old(Tracked()) ==>
                local.Snapshot() == old(local.Snapshot()).(stateType := STATE_UNKNOWN, operationStage := STAGE_UNKNOWN,
                                                           operationType := OP_UNKNOWN, opProperties := Zeros(),
                                                           cfKey := NULL)
      ensures !old(Tracked()) && local != null ==> local.Snapshot() == old(local.Snapshot()).(cfKey := NULL)
    {
      ClearThreadState();
      ClearThreadOperation();
      SetColumnFamilyInfoKey(NULL);
    }

    /**
     * One row per listed record, in the set's (unspecified) order: every
     * record is reported, and every row reports a record.
     */
    method GetThreadList(nowMicros: UInt64) returns (ok: bool, threadList: seq<ThreadStatusInfo>)
      requires ThreadsValid()
      ensures ok
      ensures |threadList| == |threadDataSet|
      ensures forall d :: d in threadDataSet ==> Report(d.Snapshot(), cfInfoMap, nowMicros) in threadList
      ensures forall k :: 0 <= k < |threadList| ==>
                exists d :: d in threadDataSet && threadList[k] == Report(d.Snapshot(), cfInfoMap, nowMicros)
    {
      threadList := [];
      var remaining := threadDataSet;
      ghost var visited: seq<ThreadStatusData> := [];
      ghost var snapshots: seq<Fields> := [];
      while remaining != {}
        invariant remaining <= threadDataSet
        invariant |visited| == |snapshots| == |threadDataSet| - |remaining|
        invariant forall k :: 0 <= k < |visited| ==>
                    visited[k] in threadDataSet && visited[k] !in remaining && snapshots[k] == visited[k].Snapshot()
        invariant forall d :: d in threadDataSet && d !in remaining ==> d in visited
        invariant threadList == Reports(snapshots, cfInfoMap, nowMicros)
        decreases |remaining|
      {
        var data :| data in remaining;
        threadList := threadList + [Report(data.Snapshot(), cfInfoMap, nowMicros)];
        visited := visited + [data];
        ghost var before := snapshots;
        snapshots := snapshots + [data.Snapshot()];
        assert snapshots[..|snapshots| - 1] == before;
        remaining := remaining - {data};
      }
      ListedRowsCover(threadDataSet, visited, snapshots, cfInfoMap, nowMicros);
      ok := true;
    }

    /** Registers a column family; an already registered key keeps its info but joins the database's set. */
    method NewColumnFamilyInfo(dbKey: Ptr, dbName: string, cfKey: Ptr, cfName: string)
      modifies this
      ensures cfInfoMap == CfInfoAfterNew(old(cfInfoMap), dbKey, dbName, cfKey, cfName)
      ensures dbKeyMap == DbKeysAfterNew(old(dbKeyMap), dbKey, cfKey)
      ensures old(RegistryValid()) && (cfKey !in old(cfInfoMap) || old(cfInfoMap)[cfKey].dbKey == dbKey) ==>
                RegistryValid()
      ensures local == old(local) && threadDataSet == old(threadDataSet)
    {
      if cfKey !in cfInfoMap {
        cfInfoMap := cfInfoMap[cfKey := ConstantColumnFamilyInfo(dbKey, dbName, cfName)];
      }
      var cfs := if dbKey in dbKeyMap then dbKeyMap[dbKey] else {};
      dbKeyMap := dbKeyMap[dbKey := cfs + {cfKey}];
      if old(RegistryValid()) && (cfKey !in old(cfInfoMap) || old(cfInfoMap)[cfKey].dbKey == dbKey) {
        NewColumnFamilyKeepsConsistent(old(cfInfoMap), old(dbKeyMap), dbKey, dbName, cfKey, cfName);
      }
    }

    /**
     * Unregisters a column family and removes it from its database's set; a
     * registered key's database must be known and list it.
     */
    method EraseColumnFamilyInfo(cfKey: Ptr)
      requires cfKey in cfInfoMap ==>
                 cfInfoMap[cfKey].dbKey in dbKeyMap && cfKey in dbKeyMap[cfInfoMap[cfKey].dbKey]
      modifies this
      ensures cfInfoMap == old(cfInfoMap) - {cfKey}
      ensures dbKeyMap == DbKeysAfterEraseCf(old(cfInfoMap), old(dbKeyMap), cfKey)
      ensures old(RegistryValid()) ==> RegistryValid()
      ensures local == old(local) && threadDataSet == old(threadDataSet)
    {
      if cfKey in cfInfoMap {
        var d := cfInfoMap[cfKey].dbKey;
        dbKeyMap := dbKeyMap[d := dbKeyMap[d] - {cfKey}];
        cfInfoMap := cfInfoMap - {cfKey};
      }
      if old(RegistryValid()) {
        EraseColumnFamilyKeepsConsistent(old(cfInfoMap), old(dbKeyMap), cfKey);
      }
    }

    /**
     * Unregisters a database and every column family in its set; an unknown
     * database is left alone.
     */
    method EraseDatabaseInfo(dbKey: Ptr)
      modifies this
      ensures cfInfoMap == CfInfoAfterEraseDb(old(cfInfoMap), old(dbKeyMap), dbKey)
      ensures dbKeyMap == old(dbKeyMap) - {dbKey}
      ensures old(RegistryValid()) ==> RegistryValid()
      ensures local == old(local) && threadDataSet == old(threadDataSet)
    {
      if dbKey !in dbKeyMap {
        return;
      }
      var cfs := dbKeyMap[dbKey];
      var remaining := cfs;
      while remaining != {}
        invariant remaining <= cfs
        invariant cfInfoMap == old(cfInfoMap) - (cfs - remaining)
        invariant dbKeyMap == old(dbKeyMap) && local == old(local) && threadDataSet == old(threadDataSet)
        decreases |remaining|
      {
        var cfKey :| cfKey in remaining;
        if cfKey in cfInfoMap {
          cfInfoMap := cfInfoMap - {cfKey};
        }
        remaining := remaining - {cfKey};
      }
      dbKeyMap := dbKeyMap - {dbKey};
      if old(RegistryValid()) {
        EraseDatabaseKeepsConsistent(old(cfInfoMap), old(dbKeyMap), dbKey);
      }
    }
  }
}
