/** The receipt entity and the error kinds shared by every layer of the
    receipt service. */
module Domain {

  /** A Unicode code point. Text is held as a sequence of code points, so the
      rune count of a string is the length of the sequence. */
  type CodePoint = c: int | 0 <= c < 0x11_0000

  type Text = seq<CodePoint>

  /** A database timestamp; the service only copies and compares them. */
  type Timestamp = nat

  /** Upper bound, in code points, on a title and on an author. */
  const MaxTextLength: nat := 500

  /** The keys under which validation failures are reported, which are also
      the three text columns a client may set. */
  datatype Field = Title | Author | Description

  datatype Receipt = Receipt(
    id: int,
    title: Text,
    author: Text,
    description: Text,
    createdAt: Timestamp,
    updatedAt: Timestamp)
  {
    /** The text held under a field key. */
    function FieldText(f: Field): Text {
      match f
      case Title => title
      case Author => author
      case Description => description
    }
  }

  /** The error kinds the service distinguishes; message strings are not modelled. */
  datatype Error =
    | RecordNotFound      // the "Record not found" error raised by the service itself
    | NoRows              // the driver's "no rows in result set"
    | ValidationFailed    // the generic validation error of Create
    | Storage(code: nat)  // any other database failure, passed through unchanged

  datatype Option<T> = None | Some(value: T)

  datatype Result<T> = Ok(value: T) | Err(error: Error)
}
