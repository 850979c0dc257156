/** The optional value used wherever the page may lack an element or an attribute. */
module Wrappers {

  /** `None` stands for JavaScript's `null`: a lookup that found nothing. */
  datatype Option<+T> = None | Some(value: T)
}
