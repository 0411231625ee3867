/**
 * The Java CompressionType enum: each constant carries a byte value, an
 * optional compression library name and the name the C++ options use.  The
 * lookups scan the constants in declaration order and return the first
 * match; a failed byte or internal-name lookup throws IllegalArgumentException.
 */
module CompressionTypes {
  import opened Wrappers
  import opened Search

  /** A Java `byte`. */
  type JByte = x: int | -128 <= x < 128

  datatype CompressionType =
    | NO_COMPRESSION
    | SNAPPY_COMPRESSION
    | ZLIB_COMPRESSION
    | BZLIB2_COMPRESSION
    | LZ4_COMPRESSION
    | LZ4HC_COMPRESSION
    | XPRESS_COMPRESSION
    | ZSTD_COMPRESSION
    | DISABLE_COMPRESSION_OPTION

  /** `CompressionType.values()`: the constants in declaration order. */
  function Values(): seq<CompressionType>
  {
    [NO_COMPRESSION, SNAPPY_COMPRESSION, ZLIB_COMPRESSION, BZLIB2_COMPRESSION, LZ4_COMPRESSION,
     LZ4HC_COMPRESSION, XPRESS_COMPRESSION, ZSTD_COMPRESSION, DISABLE_COMPRESSION_OPTION]
  }

  function GetValue(t: CompressionType): (v: JByte)
    ensures 0x0 <= v <= 0x7 || v == 0x7F
    ensures v == 0x7F <==> t == DISABLE_COMPRESSION_OPTION
  {
    match t
    case NO_COMPRESSION => 0x0
    case SNAPPY_COMPRESSION => 0x1
    case ZLIB_COMPRESSION => 0x2
    case BZLIB2_COMPRESSION => 0x3
    case LZ4_COMPRESSION => 0x4
    case LZ4HC_COMPRESSION => 0x5
    case XPRESS_COMPRESSION => 0x6
    case ZSTD_COMPRESSION => 0x7
    case DISABLE_COMPRESSION_OPTION => 0x7F
  }

  /** The library name, `None` where the Java field is null. */
  function GetLibraryName(t: CompressionType): (name: Option<string>)
    ensures name.None? <==> t == NO_COMPRESSION || t == DISABLE_COMPRESSION_OPTION
  {
    match t
    case NO_COMPRESSION => None
    case SNAPPY_COMPRESSION => Some("snappy")
    case ZLIB_COMPRESSION => Some("z")
    case BZLIB2_COMPRESSION => Some("bzip2")
    case LZ4_COMPRESSION => Some("lz4")
    case LZ4HC_COMPRESSION => Some("lz4hc")
    case XPRESS_COMPRESSION => Some("xpress")
    case ZSTD_COMPRESSION => Some("zstd")
    case DISABLE_COMPRESSION_OPTION => None
  }

  /** The name of the matching C++ enumerator, with its `k` prefix. */
  function InternalName(t: CompressionType): (name: string)
    ensures |name| > 1 && name[0] == 'k'
  {
    match t
    case NO_COMPRESSION => "kNoCompression"
    case SNAPPY_COMPRESSION => "kSnappyCompression"
    case ZLIB_COMPRESSION => "kZlibCompression"
    case BZLIB2_COMPRESSION => "kBZip2Compression"
    case LZ4_COMPRESSION => "kLZ4Compression"
    case LZ4HC_COMPRESSION => "kLZ4HCCompression"
    case XPRESS_COMPRESSION => "kXpressCompression"
    case ZSTD_COMPRESSION => "kZSTD"
    case DISABLE_COMPRESSION_OPTION => "kDisableCompressionOption"
  }

  /** Every constant is among the values. */
  lemma AllValues(t: CompressionType)
    ensures t in Values()
  {
    match t
    case NO_COMPRESSION => assert Values()[0] == t;
    case SNAPPY_COMPRESSION => assert Values()[1] == t;
    case ZLIB_COMPRESSION => assert Values()[2] == t;
    case BZLIB2_COMPRESSION => assert Values()[3] == t;
    case LZ4_COMPRESSION => assert Values()[4] == t;
    case LZ4HC_COMPRESSION => assert Values()[5] == t;
    case XPRESS_COMPRESSION => assert Values()[6] == t;
    case ZSTD_COMPRESSION => assert Values()[7] == t;
    case DISABLE_COMPRESSION_OPTION => assert Values()[8] == t;
  }

  /** The byte values are 0x0 to 0x7 and 0x7F, one per constant. */
  lemma ValuesDistinct()
    ensures forall t, u :: GetValue(t) == GetValue(u) ==> t == u
    ensures forall t :: 0 <= GetValue(t) <= 7 || GetValue(t) == 0x7F
  {
  }

  /** getCompressionType(byte): the constant with that byte value, or IllegalArgumentException. */
  function GetCompressionTypeByValue(byteIdentifier: JByte): (r: Result<CompressionType>)
    ensures r.Success? ==> GetValue(r.value) == byteIdentifier
    ensures r.Failure? ==> forall t :: t in Values() ==> GetValue(t) != byteIdentifier
  {
    match FindFirst(Values(), (t: CompressionType) => GetValue(t) == byteIdentifier)
    case Some(t) => Success(t)
    case None => Failure("Illegal value provided for CompressionType.")
  }

  /** Looking up a constant's own byte value gives the constant back. */
  lemma ValueRoundTrip(t: CompressionType)
    ensures GetCompressionTypeByValue(GetValue(t)) == Success(t)
  {
    ValuesDistinct();
    AllValues(t);
  }

  /** Exactly the bytes 0x0 to 0x7 and 0x7F are accepted. */
  lemma ValueLookupFails(b: JByte)
    ensures GetCompressionTypeByValue(b).Failure? <==> !(0 <= b <= 7 || b == 0x7F)
  {
    if 0 <= b <= 7 || b == 0x7F {
      var t := match b
        case 0 => NO_COMPRESSION case 1 => SNAPPY_COMPRESSION case 2 => ZLIB_COMPRESSION
        case 3 => BZLIB2_COMPRESSION case 4 => LZ4_COMPRESSION case 5 => LZ4HC_COMPRESSION
        case 6 => XPRESS_COMPRESSION case 7 => ZSTD_COMPRESSION case _ => DISABLE_COMPRESSION_OPTION;
      ValueRoundTrip(t);
    } else {
      ValuesDistinct();
    }
  }

  /**
   * getCompressionType(String): the constant whose non-null library name
   * equals `libraryName`; NO_COMPRESSION for null or an unknown name.
   */
  function GetCompressionTypeByLibrary(libraryName: Option<string>): (r: CompressionType)
    ensures libraryName.None? ==> r == NO_COMPRESSION
    ensures r != NO_COMPRESSION ==> GetLibraryName(r) == libraryName
  {
    if libraryName.None? then NO_COMPRESSION
    else
      match FindFirst(Values(), (t: CompressionType) => GetLibraryName(t) == libraryName)
      case Some(t) => t
      case None => NO_COMPRESSION
  }

  /** An unknown library name gives NO_COMPRESSION; a constant without a library name is never matched. */
  lemma UnknownLibrary(libraryName: Option<string>)
    requires forall t :: GetLibraryName(t) != libraryName
    ensures GetCompressionTypeByLibrary(libraryName) == NO_COMPRESSION
  {
  }

  /** Every constant with a library name is found by it. */
  lemma LibraryNameRoundTrip(t: CompressionType)
    requires GetLibraryName(t).Some?
    ensures GetCompressionTypeByLibrary(GetLibraryName(t)) == t
  {
    AllValues(t);
  }

  /** getFromInternal: the constant with that C++ name, or IllegalArgumentException. */
  function GetFromInternal(internalName: string): (r: Result<CompressionType>)
    ensures r.Success? ==> InternalName(r.value) == internalName
    ensures r.Failure? ==> forall t :: t in Values() ==> InternalName(t) != internalName
  {
    match FindFirst(Values(), (t: CompressionType) => InternalName(t) == internalName)
    case Some(t) => Success(t)
    case None => Failure("Illegal internalName '" + internalName + " ' provided for CompressionType.")
  }

  /** Internal names identify the constant. */
  lemma InternalNameInjective(t: CompressionType, u: CompressionType)
    requires InternalName(t) == InternalName(u)
    ensures t == u
  {
    var a, b := InternalName(t), InternalName(u);
    assert |a| == |b| && a[1] == b[1] && a[2] == b[2] && a[3] == b[3] && a[|a| - 1] == b[|b| - 1];
  }

  lemma InternalNameRoundTrip(t: CompressionType)
    ensures GetFromInternal(InternalName(t)) == Success(t)
  {
    AllValues(t);
    var r := GetFromInternal(InternalName(t));
    InternalNameInjective(r.value, t);
  }
}
