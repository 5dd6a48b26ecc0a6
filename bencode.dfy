/**
 * Vocabulary shared by both generations of the codec: bytes, the five marker
 * characters of the wire format, the value trees the decoders build, and the
 * outcome of an operation that may end in one of the Java exceptions the
 * codec throws.
 */
module Bencode {

  /** An unsigned byte as it comes out of `InputStream.read()` (never -1 here). */
  type byte = b: int | 0 <= b < 0x100

  /** The marker characters (org/benjamin/Bencode.java). */
  const INTEGER_MARK: byte := 'i' as int
  const LIST_MARK: byte := 'l' as int
  const DICTIONARY_MARK: byte := 'd' as int
  const STRING_SPLIT: byte := ':' as int
  const END_MARK: byte := 'e' as int

  /**
   * A decoded value: what `readInt`, `readString`, `readList` and
   * `readDictionary` hand back. Text is kept as its raw bytes (the
   * charset decoding of `readString` is not modelled), and a dictionary is
   * a finite map, so neither a `TreeMap`'s nor a `HashMap`'s iteration
   * order is part of the value.
   */
  datatype Value =
    | Int(n: int)
    | Str(bytes: seq<byte>)
    | List(items: seq<Value>)
    | Dict(entries: map<seq<byte>, Value>)

  /** The exception classes the codec lets escape, kept apart as the tests do. */
  datatype Exception =
    | IllegalState
    | IllegalArgument
    | NumberFormat
    | StringIndexOutOfBounds
    | NegativeArraySize
    | ClassCast
    | NullPointer

  /** A value, or the exception that ended the operation. */
  datatype Result<+T> = Ok(value: T) | Err(error: Exception)

  /** What a parser produced and the position just after the bytes it consumed. */
  datatype Parsed<+T> = Parsed(value: T, next: nat)

  /** A method's result paired with the cursor position it left behind. */
  function Located<T>(r: Result<T>, pos: nat): Result<Parsed<T>>
  {
    match r
    case Ok(v) => Ok(Parsed(v, pos))
    case Err(e) => Err(e)
  }

  datatype Option<+T> = None | Some(value: T)

  /** Whether `e` occurs in `data` starting at position `p`. */
  ghost predicate At(data: seq<byte>, p: nat, e: seq<byte>)
  {
    p + |e| <= |data| && data[p..p + |e|] == e
  }
}
