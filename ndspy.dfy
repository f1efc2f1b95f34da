/** The part of the renderer's display-driver interface (ndspy.h) that the
    r-display driver uses: status codes, query kinds, channel formats, user
    parameters, the records a query answers with, and the output flags. */
module Ndspy {

  /** A pointer that may be null, or a value that may be missing. */
  datatype Option<T> = None | Some(value: T) {
    function GetOr(default: T): T {
      match this
      case Some(v) => v
      case None => default
    }
  }

  /** PtDspyUnsigned8 / Rust `u8`: one byte of pixel data. */
  newtype Byte = b: int | 0 <= b < 256

  /** Bounds of the C `int` (Rust `c_int`, `i32`) the entry points compute with. */
  const MinInt32: int := -0x8000_0000
  const MaxInt32: int := 0x7FFF_FFFF

  predicate IsInt32(x: int) {
    MinInt32 <= x <= MaxInt32
  }

  /** PtDspyError: the four status codes the driver ever returns. */
  datatype DspyError = ErrorNone | ErrorBadParams | ErrorUnsupported | ErrorUndefined

  /** PtDspyQueryType: the kinds the driver tells apart, and every other kind. */
  datatype QueryType = SizeQuery | OverwriteQuery | StopQuery | OtherQuery(code: int)

  /** The element type of one channel (PkDspyFloat32, PkDspyUnsigned8, ...). */
  datatype SampleType =
    | Float32 | Unsigned32 | Signed32 | Unsigned16 | Signed16 | Unsigned8 | Signed8
    | OtherType(code: int)

  /** PtDspyDevFormat: one channel's name and element type. */
  datatype DevFormat = DevFormat(name: string, dataType: SampleType)

  /** UserParameter: a named value; `None` stands for a null value pointer.
      The type parameter is the type the caller reads the value as. */
  datatype UserParameter<T> = UserParameter(name: string, value: Option<T>)

  /** PtDspySizeInfo without its floating-point aspect ratio. */
  datatype SizeInfo = SizeInfo(width: nat, height: nat)

  /** PtDspyOverwriteInfo: an 8-bit boolean and a reserved byte. */
  datatype OverwriteInfo = OverwriteInfo(overwrite: Byte, unused: Byte)

  /** PkDspyFlagsWantsScanLineOrder, bit 0 of the output flags. */
  const WantsScanLineOrder: bv32 := 1

  /** PtFlagStuff: the output flags the driver may set during Open. */
  class FlagStuff {
    var flags: bv32

    constructor (flags: bv32)
      ensures this.flags == flags
    {
      this.flags := flags;
    }
  }
}
