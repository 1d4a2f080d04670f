/** The stable application-level error codes and their wire numbers. */
module Codes {
  import opened Frame

  datatype ErrorCode =
    | UnknownFrameKind | TruncatedFrame | TrailingFrameBytes | NonCanonicalFieldElement | ValueOutOfRange
    | CountMismatch | DimensionOverflow | AllocationFailed | InvalidUtf8
    | InvalidParameters | InstanceMismatch | UnknownMatrixId | DuplicateMatrixEntry | DuplicateQueryId
    | EmptyRequest | NotLoaded | AlreadyLoaded | UploadFailed | GpuFailure | UnexpectedFrame
    | Internal

  function ToU32(code: ErrorCode): nat {
    match code
    case UnknownFrameKind => 1
    case TruncatedFrame => 2
    case TrailingFrameBytes => 3
    case NonCanonicalFieldElement => 4
    case ValueOutOfRange => 5
    case CountMismatch => 6
    case DimensionOverflow => 7
    case AllocationFailed => 8
    case InvalidUtf8 => 9
    case InvalidParameters => 10
    case InstanceMismatch => 11
    case UnknownMatrixId => 12
    case DuplicateMatrixEntry => 13
    case DuplicateQueryId => 14
    case EmptyRequest => 15
    case NotLoaded => 16
    case AlreadyLoaded => 17
    case UploadFailed => 18
    case GpuFailure => 19
    case UnexpectedFrame => 20
    case Internal => 21
  }

  function FromU32(code: nat): (r: Option<ErrorCode>)
    ensures r.Some? <==> 1 <= code <= 21
    ensures r.Some? ==> ToU32(r.value) == code
  {
    match code
    case 1 => Some(UnknownFrameKind)
    case 2 => Some(TruncatedFrame)
    case 3 => Some(TrailingFrameBytes)
    case 4 => Some(NonCanonicalFieldElement)
    case 5 => Some(ValueOutOfRange)
    case 6 => Some(CountMismatch)
    case 7 => Some(DimensionOverflow)
    case 8 => Some(AllocationFailed)
    case 9 => Some(InvalidUtf8)
    case 10 => Some(InvalidParameters)
    case 11 => Some(InstanceMismatch)
    case 12 => Some(UnknownMatrixId)
    case 13 => Some(DuplicateMatrixEntry)
    case 14 => Some(DuplicateQueryId)
    case 15 => Some(EmptyRequest)
    case 16 => Some(NotLoaded)
    case 17 => Some(AlreadyLoaded)
    case 18 => Some(UploadFailed)
    case 19 => Some(GpuFailure)
    case 20 => Some(UnexpectedFrame)
    case 21 => Some(Internal)
    case _ => None
  }

  /** Every code reads back as itself, so no two codes share a number. */
  lemma CodeReadsBack(code: ErrorCode)
    ensures FromU32(ToU32(code)) == Some(code)
  {
  }
}
