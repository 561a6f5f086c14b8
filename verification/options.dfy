/** The optional value the scraper returns in place of Python's `None`. */
module Options {

  /** `None` stands for Python's `None`; `Some(v)` for a present value `v`. */
  datatype Option<+T> = None | Some(value: T)
}
