/**
 * The Java view of a write-batch-with-index entry: the WriteType enum with
 * its byte ids, and WriteEntry equality.  A WriteEntry is an object whose
 * fields the native iterator overwrites; its key and value are direct slices,
 * compared by content.
 */
module WriteBatchEntries {
  import opened Wrappers
  import opened Search

  type JByte = x: int | -128 <= x < 128
  type Bytes = seq<int>

  datatype WriteType = PUT | MERGE | DELETE | SINGLE_DELETE | DELETE_RANGE | LOG | XID

  /** `WriteType.values()`: the constants in declaration order. */
  function Values(): seq<WriteType>
  {
    [PUT, MERGE, DELETE, SINGLE_DELETE, DELETE_RANGE, LOG, XID]
  }

  function Id(t: WriteType): (id: JByte)
    ensures 0x0 <= id <= 0x6
  {
    match t
    case PUT => 0x0
    case MERGE => 0x1
    case DELETE => 0x2
    case SINGLE_DELETE => 0x3
    case DELETE_RANGE => 0x4
    case LOG => 0x5
    case XID => 0x6
  }

  /** The ids are 0x0 to 0x6, the position of each constant in declaration order. */
  lemma IdsInDeclarationOrder()
    ensures |Values()| == 7
    ensures forall i :: 0 <= i < 7 ==> Id(Values()[i]) == i
    ensures forall t :: t in Values()
  {
    forall t ensures t in Values() {
      assert Values()[Id(t)] == t;
    }
  }

  /** fromId: the constant with that id, or IllegalArgumentException. */
  function FromId(id: JByte): (r: Result<WriteType>)
    ensures r.Success? ==> Id(r.value) == id
    ensures r.Failure? ==> forall t :: t in Values() ==> Id(t) != id
  {
    match FindFirst(Values(), (t: WriteType) => Id(t) == id)
    case Some(t) => Success(t)
    case None => Failure("No WriteType with id=" + IdToString(id))
  }

  /** Decimal rendering of a byte for the exception message. */
  function IdToString(id: JByte): string
  {
    if id < 0 then "-" + NatToString(-(id as int)) else NatToString(id)
  }

  function NatToString(n: nat): string
    decreases n
  {
    var d := ["0", "1", "2", "3", "4", "5", "6", "7", "8", "9"][n % 10];
    if n < 10 then d else NatToString(n / 10) + d
  }

  /** Every constant is found by its own id. */
  lemma FromIdRoundTrip(t: WriteType)
    ensures FromId(Id(t)) == Success(t)
  {
    IdsInDeclarationOrder();
  }

  /** Exactly the ids 0 to 6 are accepted. */
  lemma FromIdAccepts(id: JByte)
    ensures FromId(id).Success? <==> 0 <= id <= 6
  {
    IdsInDeclarationOrder();
    if 0 <= id <= 6 {
      assert Id(Values()[id]) == id;
    }
  }

  /** A Java reference passed to `equals`: null, a WriteEntry, or an object of another class. */
  datatype JavaObject = Null | AnEntry(entry: WriteEntry) | OtherObject

  class WriteEntry {
    /** Null until the native iterator fills the entry in. */
    var writeType: Option<WriteType>
    var key: Bytes
    var value: Bytes

    /** The entry the iterator fills in: no type yet and empty slices. */
    constructor Empty()
      ensures writeType.None? && key == [] && value == []
    {
      writeType := None;
      key := [];
      value := [];
    }

    constructor (writeType: WriteType, key: Bytes, value: Bytes)
      ensures this.writeType == Some(writeType) && this.key == key && this.value == value
    {
      this.writeType := Some(writeType);
      this.key := key;
      this.value := value;
    }

    /**
     * `equals`: false for null and for other classes, true for the same
     * object, and otherwise the fields compared; a null type on this side
     * throws NullPointerException.
     */
    function Equals(other: JavaObject): (r: Result<bool>)
      reads this, if other.AnEntry? then {other.entry} else {}
      ensures other.Null? || other.OtherObject? ==> r == Success(false)
      ensures other == AnEntry(this) ==> r == Success(true)
      ensures other.AnEntry? && other.entry != this ==>
                (r.Failure? <==> writeType.None?)
      ensures other.AnEntry? && other.entry != this && r.Success? ==>
                (r.value <==> (writeType == other.entry.writeType && key == other.entry.key
                               && value == other.entry.value))
    {
      match other
      case Null => Success(false)
      case OtherObject => Success(false)
      case AnEntry(e) =>
        if e == this then Success(true)
        else if writeType.None? then Failure("NullPointerException")
        else Success(writeType == e.writeType && key == e.key && value == e.value)
    }
  }

  /** Between two entries with a type, equality is symmetric. */
  lemma EqualsSymmetric(a: WriteEntry, b: WriteEntry)
    requires a.writeType.Some? && b.writeType.Some?
    ensures a.Equals(AnEntry(b)) == b.Equals(AnEntry(a))
  {
  }
}
