/** What a format string turns into: the types of the values that a statement prints and the
    fragments that print them. */
module Formats {
  import opened Packing

  datatype FormatType =
    | NoArgument
    | UnsignedChar | UnsignedShort | UnsignedInt | UnsignedLong | UnsignedLongLong | UintMax | SizeT | WInt
    | SignedChar | Short | Int | Long | LongLong | IntMax | PtrDiff
    | Double | LongDouble | VoidPointer | CharPointer | WideCharPointer

  /** The integer type behind a format type, on a 64-bit machine. */
  function IntTypeOf(f: FormatType): (t: IntType)
    requires IsInteger(f)
    ensures t.Valid()
  {
    match f
    case UnsignedChar => IntType(false, 1)
    case UnsignedShort => IntType(false, 2)
    case UnsignedInt => IntType(false, 4)
    case WInt => IntType(false, 4)
    case SignedChar => IntType(true, 1)
    case Short => IntType(true, 2)
    case Int => IntType(true, 4)
    case Long => IntType(true, 8)
    case LongLong => IntType(true, 8)
    case IntMax => IntType(true, 8)
    case PtrDiff => IntType(true, 8)
    case _ => IntType(false, 8)
  }

  predicate IsInteger(f: FormatType) {
    !f.NoArgument? && !IsFloating(f) && !f.VoidPointer? && !f.CharPointer? && !f.WideCharPointer?
  }

  predicate IsFloating(f: FormatType) { f.Double? || f.LongDouble? }

  predicate IsStringType(f: FormatType) { f.CharPointer? || f.WideCharPointer? }

  /** A piece of the format string with at most one specifier in it. */
  datatype Fragment = Fragment(argType: FormatType, dynamicWidth: bool, dynamicPrecision: bool, text: string)

  /** The values that printing a fragment takes, in order. */
  function Needs(f: Fragment): seq<FormatType> {
    (if f.dynamicWidth then [Int] else []) +
    (if f.dynamicPrecision then [Int] else []) +
    (if f.argType.NoArgument? then [] else [f.argType])
  }

  function AllNeeds(fragments: seq<Fragment>): seq<FormatType> {
    if fragments == [] then [] else Needs(fragments[0]) + AllNeeds(fragments[1..])
  }
}
