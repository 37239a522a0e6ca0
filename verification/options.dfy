/** The optional value the model uses for absent OCR results, absent scores
    and failed parses. */
module Options {

  datatype Option<T> = None | Some(value: T)
}
