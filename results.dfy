/** Failure-compatible wrappers shared by every module of the model, and the
    one error vocabulary the modelled code raises. */
module Results {

  /** The error conditions the modelled Python code raises. */
  datatype Error =
    | NoFrames            // writer given an empty frame list, container without frames
    | FieldOverflow       // struct.pack of a value outside its field's range
    | Truncated           // struct.unpack of a slice shorter than the field
    | BadMagic            // a magic number that is not the expected constant
    | UnknownFrameFormat  // container frame whose magic is neither XTH nor XTG
    | InvalidPageFormat   // writer page_format other than 'xth' / 'xtg'
    | InvalidNumber       // int() of a string that is not an integer literal
    | AttributeError      // attribute access on a value that lacks the attribute
    | MixedFormats        // frames of different formats handed to one container
    | BadOutputExtension  // output path with an unsupported extension
    | EncoderFailure      // failure reported by the external image encoder
    | UnreadableImage     // Image.open of a picture file PIL cannot read

  datatype Option<T> = None | Some(value: T)

  datatype Result<T> = Ok(value: T) | Err(error: Error) {
    predicate IsFailure() {
      Err?
    }

    function PropagateFailure<U>(): Result<U>
      requires Err?
    {
      Err(error)
    }

    function Extract(): T
      requires Ok?
    {
      value
    }
  }
}
