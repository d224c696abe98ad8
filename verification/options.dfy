/** The optional value returned by a search. */
module Options {
  /** A value that may be missing; `None` stands for `std::string::npos`. */
  datatype Option<+T> = None | Some(value: T)
}
