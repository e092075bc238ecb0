/**
 * The values a decision output holds and hands out, and the failures of its
 * operations. Java's null is written out: a raw value may be null and a
 * reference to a typed value may be null.
 */
module Values {

  /** An optional value; None stands for Java's null where a nullable String or object is held. */
  datatype Option<+T> = None | Some(value: T)

  /** What the operations of a decision output throw. */
  datatype Error =
    | MoreThanOneValue                     // a single-value accessor on more than one entry
    | UnsupportedOperation(message: string) // a mutator of the map view, or an entry's setValue
    | NullPointer                          // getValue() called on a null typed value

  /** The outcome of an operation that may throw. */
  datatype Result<+T> = Ok(value: T) | Err(error: Error)

  /**
   * A raw (type-erased) value as the untyped view of a decision output hands
   * it out. Null is Java's null; Other stands for any value a decision
   * output does not look into.
   */
  datatype RawValue =
    | Null
    | Text(s: string)
    | Number(n: int)
    | Boolean(b: bool)
    | Other(id: nat)

  /**
   * A value of the engine's variable type system. A decision output sees
   * nothing of it except the raw value it carries and its type name.
   */
  datatype TypedValue = TypedValue(value: RawValue, typeName: string) {
    /** The raw value behind this typed value. */
    function GetValue(): RawValue { value }
  }

  /** A reference to a typed value that may be null. */
  datatype TypedRef = NullRef | Ref(typed: TypedValue)
}
