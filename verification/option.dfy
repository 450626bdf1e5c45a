/** The optional value the extractor passes around where the source uses `None`. */
module Optional {

  datatype Option<+T> = None | Some(value: T)
}
