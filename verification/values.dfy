/** Values the cleaning pipeline receives from the form layer. */
module Values {

  /** Python's `None` next to a present value. */
  datatype Option<+T> = None | Some(value: T)

  /** One field of a submitted record as the pipeline sees it: either a
      `str`, or some other Python value (None, the integer rating, ...)
      for which `isinstance(x, str)` is false. */
  datatype Cell = Text(text: string) | NotText
}
